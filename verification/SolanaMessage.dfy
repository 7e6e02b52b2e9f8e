/** The legacy Solana message: `compile_message` as a compiler into bytes, the decoder of the
    format as its inverse, and the exact inputs on which compiling loses nothing. */
module SolanaMessage {
  import opened Wrappers
  import opened Seqs
  import opened Bytes

  type Pubkey = s: seq<byte> | |s| == 32 witness seq(32, _ => 0)

  datatype AccountMeta = AccountMeta(pubkey: Pubkey, isSigner: bool, isWritable: bool)

  datatype Instruction = Instruction(programId: Pubkey, accounts: seq<AccountMeta>, data: seq<byte>)

  // ---------------------------------------------------------------- shortvec

  function Shortvec(n: nat): seq<byte>
  {
    if n < 128 then [n] else [n % 128 + 128] + Shortvec(n / 128)
  }

  /** Reads one compact length and returns what follows it. */
  function ReadShortvec(s: seq<byte>): Option<(nat, seq<byte>)>
  {
    if s == [] then None
    else if s[0] < 128 then Some((s[0], s[1..]))
    else
      match ReadShortvec(s[1..])
      case None => None
      case Some((hi, rest)) => Some((s[0] - 128 + 128 * hi, rest))
  }

  lemma {:induction false} ShortvecRoundTrip(n: nat, rest: seq<byte>)
    ensures ReadShortvec(Shortvec(n) + rest) == Some((n, rest))
  {
    var s := Shortvec(n) + rest;
    if n < 128 {
      assert s[1..] == rest;
    } else {
      assert s[1..] == Shortvec(n / 128) + rest;
      ShortvecRoundTrip(n / 128, rest);
    }
  }

  method PutShortvec(n: nat, out: seq<byte>) returns (r: seq<byte>)
    ensures r == out + Shortvec(n)
  {
    r := out;
    var m := n;
    while true
      invariant r + Shortvec(m) == out + Shortvec(n)
      decreases m
    {
      var b: byte := m % 128;
      var next := m / 128;
      if next != 0 {
        b := b + 128;
        assert Shortvec(m) == [b] + Shortvec(next);
        assert (r + [b]) + Shortvec(next) == r + ([b] + Shortvec(next));
      }
      r := r + [b];
      m := next;
      if m == 0 {
        break;
      }
    }
  }

  // ---------------------------------------------------- merging account flags

  /** Every mention of an account, in the order the compiler touches them. */
  function InstructionMentions(ix: Instruction): seq<AccountMeta> {
    ix.accounts + [AccountMeta(ix.programId, false, false)]
  }

  function IxsMentions(ixs: seq<Instruction>): seq<AccountMeta> {
    if ixs == [] then [] else InstructionMentions(ixs[0]) + IxsMentions(ixs[1..])
  }

  function Mentions(feePayer: Pubkey, ixs: seq<Instruction>): seq<AccountMeta> {
    [AccountMeta(feePayer, true, true)] + IxsMentions(ixs)
  }

  predicate Mentioned(ms: seq<AccountMeta>, k: Pubkey) {
    exists m :: m in ms && m.pubkey == k
  }

  /** The OR of the signer flags given to `k`. */
  predicate Signer(ms: seq<AccountMeta>, k: Pubkey) {
    exists m :: m in ms && m.pubkey == k && m.isSigner
  }

  predicate Writable(ms: seq<AccountMeta>, k: Pubkey) {
    exists m :: m in ms && m.pubkey == k && m.isWritable
  }

  /** Distinct accounts in order of first mention. */
  function Order(ms: seq<AccountMeta>): seq<Pubkey> {
    if ms == [] then []
    else
      var before := ms[..|ms| - 1];
      var k := ms[|ms| - 1].pubkey;
      if Mentioned(before, k) then Order(before) else Order(before) + [k]
  }

  lemma {:induction false} OrderProperties(ms: seq<AccountMeta>)
    ensures Distinct(Order(ms))
    ensures forall k :: k in Order(ms) <==> Mentioned(ms, k)
  {
    if ms != [] {
      var before := ms[..|ms| - 1];
      OrderProperties(before);
      assert ms == before + [ms[|ms| - 1]];
    }
  }

  type Flags = map<Pubkey, (bool, bool)>

  /** What the merge table holds after touching exactly `ms`. */
  ghost predicate Merged(flags: Flags, order: seq<Pubkey>, ms: seq<AccountMeta>) {
    && order == Order(ms)
    && (forall k :: k in flags <==> Mentioned(ms, k))
    && (forall k :: k in flags ==> flags[k] == (Signer(ms, k), Writable(ms, k)))
  }

  lemma MentionOneMore(ms: seq<AccountMeta>, m: AccountMeta, k: Pubkey)
    ensures Mentioned(ms + [m], k) == (Mentioned(ms, k) || m.pubkey == k)
    ensures Signer(ms + [m], k) == (Signer(ms, k) || (m.pubkey == k && m.isSigner))
    ensures Writable(ms + [m], k) == (Writable(ms, k) || (m.pubkey == k && m.isWritable))
  {
    assert forall x :: x in ms + [m] <==> x in ms || x == m;
    assert m in ms + [m];
  }

  method Touch(flags: Flags, order: seq<Pubkey>, m: AccountMeta, ghost ms: seq<AccountMeta>)
    returns (flags': Flags, order': seq<Pubkey>)
    requires Merged(flags, order, ms)
    ensures Merged(flags', order', ms + [m])
  {
    var e := (false, false);
    order' := order;
    if m.pubkey in flags {
      e := flags[m.pubkey];
    } else {
      order' := order' + [m.pubkey];
    }
    flags' := flags[m.pubkey := (e.0 || m.isSigner, e.1 || m.isWritable)];
    assert (ms + [m])[..|ms|] == ms;
    assert e == (Signer(ms, m.pubkey), Writable(ms, m.pubkey));
    forall k: Pubkey
      ensures k in flags' <==> Mentioned(ms + [m], k)
      ensures k in flags' ==> flags'[k] == (Signer(ms + [m], k), Writable(ms + [m], k))
    {
      MentionOneMore(ms, m, k);
    }
  }

  // ------------------------------------------------------------- key partition

  function Select(ms: seq<AccountMeta>, feePayer: Pubkey, s: bool, w: bool): seq<Pubkey> {
    Filter(Order(ms), k => k != feePayer && Signer(ms, k) == s && Writable(ms, k) == w)
  }

  function AccountKeys(ms: seq<AccountMeta>, feePayer: Pubkey): seq<Pubkey> {
    [feePayer]
    + Select(ms, feePayer, true, true)
    + Select(ms, feePayer, true, false)
    + Select(ms, feePayer, false, true)
    + Select(ms, feePayer, false, false)
  }

  function NumSigners(ms: seq<AccountMeta>, feePayer: Pubkey): nat {
    |Filter(AccountKeys(ms, feePayer), k => Signer(ms, k) || k == feePayer)|
  }

  function NumReadonlySigned(ms: seq<AccountMeta>, feePayer: Pubkey): nat {
    |Filter(AccountKeys(ms, feePayer), k => Signer(ms, k) && !Writable(ms, k) && k != feePayer)|
  }

  function NumReadonlyUnsigned(ms: seq<AccountMeta>, feePayer: Pubkey): nat {
    |Filter(AccountKeys(ms, feePayer), k => !Signer(ms, k) && !Writable(ms, k))|
  }

  function IndexOf(keys: seq<Pubkey>, k: Pubkey): (i: nat)
    requires k in keys
    ensures i < |keys| && keys[i] == k
  {
    if keys[0] == k then 0 else 1 + IndexOf(keys[1..], k)
  }

  lemma SelectMembers(ms: seq<AccountMeta>, feePayer: Pubkey, s: bool, w: bool)
    ensures Distinct(Select(ms, feePayer, s, w))
    ensures forall k :: k in Select(ms, feePayer, s, w) <==>
      Mentioned(ms, k) && k != feePayer && Signer(ms, k) == s && Writable(ms, k) == w
  {
    OrderProperties(ms);
    FilterMembers(Order(ms), k => k != feePayer && Signer(ms, k) == s && Writable(ms, k) == w);
  }

  /** The keys are distinct and are the fee payer followed by every other mentioned account. */
  lemma AccountKeysMembers(ms: seq<AccountMeta>, feePayer: Pubkey)
    ensures Distinct(AccountKeys(ms, feePayer))
    ensures forall k :: k in AccountKeys(ms, feePayer) <==> k == feePayer || Mentioned(ms, k)
  {
    SelectMembers(ms, feePayer, true, true);
    SelectMembers(ms, feePayer, true, false);
    SelectMembers(ms, feePayer, false, true);
    SelectMembers(ms, feePayer, false, false);
    var a, b := Select(ms, feePayer, true, true), Select(ms, feePayer, true, false);
    var c, d := Select(ms, feePayer, false, true), Select(ms, feePayer, false, false);
    DistinctAppend([feePayer], a);
    DistinctAppend([feePayer] + a, b);
    DistinctAppend([feePayer] + a + b, c);
    DistinctAppend([feePayer] + a + b + c, d);
  }

  /** A filter that keeps all or none of a group keeps this many of its keys. */
  lemma FilterGroup(group: seq<Pubkey>, keep: bool, p: Pubkey -> bool)
    requires forall k :: k in group ==> p(k) == keep
    ensures |Filter(group, p)| == if keep then |group| else 0
  {
    if keep { FilterAll(group, p); } else { FilterNone(group, p); }
  }

  /** How many keys a filter keeps that only looks at the fee payer and the two flags. */
  lemma FilterByFlags(ms: seq<AccountMeta>, feePayer: Pubkey, p: Pubkey -> bool, f: (bool, bool) -> bool)
    requires p(feePayer) == f(true, true)
    requires forall k :: k != feePayer ==> p(k) == f(Signer(ms, k), Writable(ms, k))
    ensures |Filter(AccountKeys(ms, feePayer), p)| ==
      (if f(true, true) then 1 + |Select(ms, feePayer, true, true)| else 0)
      + (if f(true, false) then |Select(ms, feePayer, true, false)| else 0)
      + (if f(false, true) then |Select(ms, feePayer, false, true)| else 0)
      + (if f(false, false) then |Select(ms, feePayer, false, false)| else 0)
  {
    var a, b := Select(ms, feePayer, true, true), Select(ms, feePayer, true, false);
    var c, d := Select(ms, feePayer, false, true), Select(ms, feePayer, false, false);
    FilterAppend([feePayer] + a + b + c, d, p);
    FilterAppend([feePayer] + a + b, c, p);
    FilterAppend([feePayer] + a, b, p);
    FilterAppend([feePayer], a, p);
    forall s, w
      ensures |Filter(Select(ms, feePayer, s, w), p)| == if f(s, w) then |Select(ms, feePayer, s, w)| else 0
    {
      SelectMembers(ms, feePayer, s, w);
      FilterGroup(Select(ms, feePayer, s, w), f(s, w), p);
    }
  }

  /** The three header counts are the sizes of the groups they announce. */
  lemma HeaderCounts(ms: seq<AccountMeta>, feePayer: Pubkey)
    requires Signer(ms, feePayer) && Writable(ms, feePayer)
    ensures NumSigners(ms, feePayer) ==
      1 + |Select(ms, feePayer, true, true)| + |Select(ms, feePayer, true, false)|
    ensures NumReadonlySigned(ms, feePayer) == |Select(ms, feePayer, true, false)|
    ensures NumReadonlyUnsigned(ms, feePayer) == |Select(ms, feePayer, false, false)|
  {
    FilterByFlags(ms, feePayer, (k: Pubkey) => Signer(ms, k) || k == feePayer, (s, w) => s);
    FilterByFlags(ms, feePayer, (k: Pubkey) => Signer(ms, k) && !Writable(ms, k) && k != feePayer,
                  (s, w) => s && !w);
    FilterByFlags(ms, feePayer, (k: Pubkey) => !Signer(ms, k) && !Writable(ms, k), (s, w) => !s && !w);
  }

  // ------------------------------------------------------ the message and its bytes

  datatype CompiledIx = CompiledIx(program: byte, accounts: seq<byte>, data: seq<byte>)

  datatype Message = Message(
    numSigners: byte, readonlySigned: byte, readonlyUnsigned: byte,
    keys: seq<Pubkey>, blockhash: Pubkey, ixs: seq<CompiledIx>)

  /** Accounts become indices, cast to one byte. */
  function LowerIx(keys: seq<Pubkey>, ix: Instruction): CompiledIx
    requires ix.programId in keys && forall a :: a in ix.accounts ==> a.pubkey in keys
  {
    CompiledIx(IndexOf(keys, ix.programId) % 256,
               seq(|ix.accounts|, i requires 0 <= i < |ix.accounts| =>
                 IndexOf(keys, ix.accounts[i].pubkey) % 256),
               ix.data)
  }

  ghost predicate Covers(keys: seq<Pubkey>, ixs: seq<Instruction>) {
    forall ix :: ix in ixs ==> ix.programId in keys && forall a :: a in ix.accounts ==> a.pubkey in keys
  }

  function LowerIxs(keys: seq<Pubkey>, ixs: seq<Instruction>): seq<CompiledIx>
    requires Covers(keys, ixs)
  {
    if ixs == [] then [] else [LowerIx(keys, ixs[0])] + LowerIxs(keys, ixs[1..])
  }

  lemma {:induction false} KeysCoverIxs(feePayer: Pubkey, ixs: seq<Instruction>)
    ensures Covers(AccountKeys(Mentions(feePayer, ixs), feePayer), ixs)
  {
    var ms := Mentions(feePayer, ixs);
    AccountKeysMembers(ms, feePayer);
    forall ix | ix in ixs
      ensures Mentioned(ms, ix.programId) && forall a :: a in ix.accounts ==> Mentioned(ms, a.pubkey)
    {
      MentionsContain(ixs, ix);
      assert AccountMeta(ix.programId, false, false) in ms;
    }
  }

  lemma {:induction false} MentionsContain(ixs: seq<Instruction>, ix: Instruction)
    requires ix in ixs
    ensures forall m :: m in InstructionMentions(ix) ==> m in IxsMentions(ixs)
    ensures AccountMeta(ix.programId, false, false) in InstructionMentions(ix)
    ensures forall a :: a in ix.accounts ==> a in InstructionMentions(ix)
  {
    if ix != ixs[0] {
      MentionsContain(ixs[1..], ix);
    }
    assert InstructionMentions(ix)[|ix.accounts|] == AccountMeta(ix.programId, false, false);
  }

  /** The compiled message before printing; all three counts are cast to one byte. */
  function Lower(feePayer: Pubkey, ixs: seq<Instruction>, blockhash: Pubkey): Message {
    var ms := Mentions(feePayer, ixs);
    KeysCoverIxs(feePayer, ixs);
    Message(NumSigners(ms, feePayer) % 256, NumReadonlySigned(ms, feePayer) % 256,
            NumReadonlyUnsigned(ms, feePayer) % 256, AccountKeys(ms, feePayer), blockhash,
            LowerIxs(AccountKeys(ms, feePayer), ixs))
  }

  function EncodeIx(ix: CompiledIx): seq<byte> {
    [ix.program] + (Shortvec(|ix.accounts|) + (ix.accounts + (Shortvec(|ix.data|) + ix.data)))
  }

  function EncodeIxs(ixs: seq<CompiledIx>): seq<byte> {
    if ixs == [] then [] else EncodeIx(ixs[0]) + EncodeIxs(ixs[1..])
  }

  function Encode(m: Message): seq<byte> {
    [m.numSigners, m.readonlySigned, m.readonlyUnsigned]
    + (Shortvec(|m.keys|) + (Flatten(m.keys) + (m.blockhash
    + (Shortvec(|m.ixs|) + EncodeIxs(m.ixs)))))
  }

  // ------------------------------------------------------------------ decoder

  function TakeBytes(s: seq<byte>, n: nat): Option<(seq<byte>, seq<byte>)> {
    if |s| < n then None else Some((s[..n], s[n..]))
  }

  function ReadKeys(s: seq<byte>, n: nat): Option<(seq<Pubkey>, seq<byte>)> {
    if n == 0 then Some(([], s))
    else if |s| < 32 then None
    else
      match ReadKeys(s[32..], n - 1)
      case None => None
      case Some((keys, rest)) => Some(([s[..32]] + keys, rest))
  }

  function ReadIx(s: seq<byte>): Option<(CompiledIx, seq<byte>)> {
    if s == [] then None
    else match ReadShortvec(s[1..])
    case None => None
    case Some((na, s1)) =>
      match TakeBytes(s1, na)
      case None => None
      case Some((accounts, s2)) =>
        match ReadShortvec(s2)
        case None => None
        case Some((nd, s3)) =>
          match TakeBytes(s3, nd)
          case None => None
          case Some((data, s4)) => Some((CompiledIx(s[0], accounts, data), s4))
  }

  function ReadIxs(s: seq<byte>, n: nat): Option<(seq<CompiledIx>, seq<byte>)>
    decreases n
  {
    if n == 0 then Some(([], s))
    else match ReadIx(s)
    case None => None
    case Some((ix, s1)) =>
      match ReadIxs(s1, n - 1)
      case None => None
      case Some((ixs, rest)) => Some(([ix] + ixs, rest))
  }

  /** The legacy message format, read front to back. */
  function Decode(s: seq<byte>): Option<(Message, seq<byte>)> {
    if |s| < 3 then None
    else match ReadShortvec(s[3..])
    case None => None
    case Some((nk, s1)) =>
      match ReadKeys(s1, nk)
      case None => None
      case Some((keys, s2)) =>
        if |s2| < 32 then None
        else match ReadShortvec(s2[32..])
        case None => None
        case Some((ni, s3)) =>
          match ReadIxs(s3, ni)
          case None => None
          case Some((ixs, rest)) => Some((Message(s[0], s[1], s[2], keys, s2[..32], ixs), rest))
  }

  lemma {:induction false} KeysRoundTrip(keys: seq<Pubkey>, rest: seq<byte>)
    ensures ReadKeys(Flatten(keys) + rest, |keys|) == Some((keys, rest))
  {
    var s := Flatten(keys) + rest;
    if keys == [] {
      assert s == rest;
    } else {
      assert s[..32] == keys[0];
      assert s[32..] == Flatten(keys[1..]) + rest;
      KeysRoundTrip(keys[1..], rest);
      assert [keys[0]] + keys[1..] == keys;
    }
  }

  lemma TakeBytesRoundTrip(a: seq<byte>, rest: seq<byte>)
    ensures TakeBytes(a + rest, |a|) == Some((a, rest))
  {
    assert (a + rest)[..|a|] == a && (a + rest)[|a|..] == rest;
  }

  lemma IxRoundTrip(ix: CompiledIx, rest: seq<byte>)
    ensures ReadIx(EncodeIx(ix) + rest) == Some((ix, rest))
  {
    var s := EncodeIx(ix) + rest;
    var d := Shortvec(|ix.data|) + (ix.data + rest);
    assert s[1..] == Shortvec(|ix.accounts|) + (ix.accounts + d);
    ShortvecRoundTrip(|ix.accounts|, ix.accounts + d);
    TakeBytesRoundTrip(ix.accounts, d);
    ShortvecRoundTrip(|ix.data|, ix.data + rest);
    TakeBytesRoundTrip(ix.data, rest);
  }

  lemma ReadIxsStep(s: seq<byte>, n: nat, ix: CompiledIx, s1: seq<byte>, ixs: seq<CompiledIx>, rest: seq<byte>)
    requires n > 0 && ReadIx(s) == Some((ix, s1)) && ReadIxs(s1, n - 1) == Some((ixs, rest))
    ensures ReadIxs(s, n) == Some(([ix] + ixs, rest))
  {
  }

  lemma {:induction false} IxsRoundTrip(ixs: seq<CompiledIx>, rest: seq<byte>)
    ensures ReadIxs(EncodeIxs(ixs) + rest, |ixs|) == Some((ixs, rest))
  {
    if ixs == [] {
      assert EncodeIxs(ixs) + rest == rest;
    } else {
      var tail := EncodeIxs(ixs[1..]) + rest;
      assert EncodeIxs(ixs) + rest == EncodeIx(ixs[0]) + tail;
      IxRoundTrip(ixs[0], tail);
      IxsRoundTrip(ixs[1..], rest);
      ReadIxsStep(EncodeIxs(ixs) + rest, |ixs|, ixs[0], tail, ixs[1..], rest);
      assert [ixs[0]] + ixs[1..] == ixs;
    }
  }

  /** Printing is self-delimiting and loses nothing. */
  lemma EncodeRoundTrip(m: Message, rest: seq<byte>)
    ensures Decode(Encode(m) + rest) == Some((m, rest))
  {
    var s := Encode(m) + rest;
    var s3 := EncodeIxs(m.ixs) + rest;
    var s2 := m.blockhash + (Shortvec(|m.ixs|) + s3);
    assert s[3..] == Shortvec(|m.keys|) + (Flatten(m.keys) + s2);
    ShortvecRoundTrip(|m.keys|, Flatten(m.keys) + s2);
    KeysRoundTrip(m.keys, s2);
    assert s2[..32] == m.blockhash;
    assert s2[32..] == Shortvec(|m.ixs|) + s3;
    ShortvecRoundTrip(|m.ixs|, s3);
    IxsRoundTrip(m.ixs, rest);
  }

  // ------------------------------------------------------- the bytes, by position

  function Pow128(w: nat): nat {
    if w == 0 then 1 else 128 * Pow128(w - 1)
  }

  /** A compact length is its digits in base 128, the first the lowest, as few as it takes; all but
      the last have the top bit set. */
  lemma {:induction false} ShortvecDigits(n: nat, i: nat)
    ensures var w := |Shortvec(n)|;
      && w > 0 && n < Pow128(w) && (w > 1 ==> n >= Pow128(w - 1))
      && (i < w ==> Pow128(i) > 0 && Shortvec(n)[i] == n / Pow128(i) % 128 + if i < w - 1 then 128 else 0)
  {
    if n >= 128 {
      ShortvecDigits(n / 128, if i > 0 then i - 1 else 0);
      var w := |Shortvec(n)|;
      OneMoreDigit(n, Pow128(w - 1), Pow128(w - 2));
      if 0 < i < w {
        DivTwice(n, 128, Pow128(i - 1));
      }
    }
  }

  lemma OneMoreDigit(n: nat, high: nat, low: nat)
    requires n / 128 < high && (low > 1 ==> n / 128 >= low)
    ensures n < 128 * high && (low > 1 ==> n >= 128 * low)
  {
  }

  /** `part` lies at position `at` of `p`. */
  predicate Holds(p: seq<byte>, at: nat, part: seq<byte>) {
    at + |part| <= |p| && p[at..at + |part|] == part
  }

  lemma Behind(a: seq<byte>, b: seq<byte>, c: seq<byte>)
    ensures Holds(a + (b + c), |a|, b) && (a + b) + c == a + (b + c)
  {
  }

  /** The keys follow each other, 32 bytes each. */
  lemma {:induction false} KeyAt(keys: seq<Pubkey>, i: nat)
    ensures |Flatten(keys)| == 32 * |keys|
    ensures i < |keys| ==> Holds(Flatten(keys), 32 * i, keys[i])
  {
    if keys != [] {
      KeyAt(keys[1..], if i > 0 then i - 1 else 0);
      if 0 < i < |keys| {
        Shifted(keys[0], Flatten(keys[1..]), 32 * (i - 1), keys[i]);
      }
    }
  }

  lemma Shifted(a: seq<byte>, p: seq<byte>, at: nat, part: seq<byte>)
    requires Holds(p, at, part)
    ensures Holds(a + p, |a| + at, part)
  {
    assert (a + p)[|a| + at..|a| + at + |part|] == p[at..at + |part|];
  }

  /** Where each part of a printed message lies: the three counts, the number of keys, the keys, the
      block hash, the number of instructions and the instructions. */
  lemma Layout(m: Message)
    ensures var p, k, n := Encode(m), |Shortvec(|m.keys|)|, |Shortvec(|m.ixs|)|;
      var h := 3 + k + 32 * |m.keys|;
      && |Flatten(m.keys)| == 32 * |m.keys|
      && Holds(p, 0, [m.numSigners]) && Holds(p, 1, [m.readonlySigned]) && Holds(p, 2, [m.readonlyUnsigned])
      && Holds(p, 3, Shortvec(|m.keys|)) && Holds(p, 3 + k, Flatten(m.keys))
      && Holds(p, h, m.blockhash) && Holds(p, h + 32, Shortvec(|m.ixs|)) && Holds(p, h + 32 + n, EncodeIxs(m.ixs))
      && |p| == h + 32 + n + |EncodeIxs(m.ixs)|
  {
    KeyAt(m.keys, 0);
    var a, b, c := [m.numSigners, m.readonlySigned, m.readonlyUnsigned], Shortvec(|m.keys|), Flatten(m.keys);
    var e, f := Shortvec(|m.ixs|), EncodeIxs(m.ixs);
    Behind(a, b, c + (m.blockhash + (e + f)));
    Behind(a + b, c, m.blockhash + (e + f));
    Behind(a + b + c, m.blockhash, e + f);
    Behind(a + b + c + m.blockhash, e, f);
    Behind(a + b + c + m.blockhash + e, f, []);
    assert f + [] == f;
  }

  /** Where each part of a printed instruction lies: the program, then the accounts and the data,
      each behind its length. */
  lemma IxLayout(ix: CompiledIx)
    ensures var p, a, d := EncodeIx(ix), |Shortvec(|ix.accounts|)|, |Shortvec(|ix.data|)|;
      && Holds(p, 0, [ix.program]) && Holds(p, 1, Shortvec(|ix.accounts|)) && Holds(p, 1 + a, ix.accounts)
      && Holds(p, 1 + a + |ix.accounts|, Shortvec(|ix.data|)) && Holds(p, 1 + a + |ix.accounts| + d, ix.data)
      && |p| == 1 + a + |ix.accounts| + d + |ix.data|
  {
    var a, b, c, d := [ix.program], Shortvec(|ix.accounts|), ix.accounts, Shortvec(|ix.data|);
    Behind(a, b, c + (d + ix.data));
    Behind(a + b, c, d + ix.data);
    Behind(a + b + c, d, ix.data);
    Behind(a + b + c + d, ix.data, []);
    assert ix.data + [] == ix.data;
  }

  // ------------------------------------------------------- the order of the keys

  function FirstMention(ms: seq<AccountMeta>, k: Pubkey): (i: nat)
    requires Mentioned(ms, k)
    ensures i < |ms| && ms[i].pubkey == k && forall j :: 0 <= j < i ==> ms[j].pubkey != k
  {
    if ms[0].pubkey == k then 0 else 1 + FirstMention(ms[1..], k)
  }

  predicate Before(ms: seq<AccountMeta>, a: Pubkey, b: Pubkey) {
    Mentioned(ms, a) && Mentioned(ms, b) && FirstMention(ms, a) < FirstMention(ms, b)
  }

  /** The keys stand in the order in which they are first mentioned. */
  ghost predicate ByFirstMention(ms: seq<AccountMeta>, keys: seq<Pubkey>) {
    Pairwise(keys, (a: Pubkey, b: Pubkey) => Before(ms, a, b))
  }

  lemma FirstMentionKept(before: seq<AccountMeta>, m: AccountMeta, k: Pubkey)
    requires Mentioned(before, k)
    ensures Mentioned(before + [m], k) && FirstMention(before + [m], k) == FirstMention(before, k)
  {
    MentionOneMore(before, m, k);
    var i := FirstMention(before, k);
    assert (before + [m])[i].pubkey == k;
    assert forall j :: 0 <= j < i ==> (before + [m])[j] == before[j];
  }

  lemma {:induction false} OrderByFirstMention(ms: seq<AccountMeta>)
    ensures ByFirstMention(ms, Order(ms))
  {
    if ms != [] {
      var before, m := ms[..|ms| - 1], ms[|ms| - 1];
      assert ms == before + [m];
      OrderByFirstMention(before);
      forall i, j | 0 <= i < j < |Order(ms)| ensures Before(ms, Order(ms)[i], Order(ms)[j]) {
        StillBefore(before, m, i, j);
      }
    }
  }

  lemma StillBefore(before: seq<AccountMeta>, m: AccountMeta, i: nat, j: nat)
    requires ByFirstMention(before, Order(before)) && i < j < |Order(before + [m])|
    ensures Before(before + [m], Order(before + [m])[i], Order(before + [m])[j])
  {
    assert (before + [m])[..|before|] == before;
    OrderProperties(before);
    var a := Order(before)[i];
    assert a in Order(before);
    FirstMentionKept(before, m, a);
    if j < |Order(before)| {
      var b := Order(before)[j];
      assert b in Order(before) && Before(before, a, b);
      FirstMentionKept(before, m, b);
    } else {
      LatestMention(before, m);
    }
  }

  lemma LatestMention(before: seq<AccountMeta>, m: AccountMeta)
    requires !Mentioned(before, m.pubkey)
    ensures Mentioned(before + [m], m.pubkey) && FirstMention(before + [m], m.pubkey) == |before|
  {
    MentionOneMore(before, m, m.pubkey);
    forall i | 0 <= i < |before| ensures (before + [m])[i].pubkey != m.pubkey {
      assert before[i] in before;
    }
  }

  /** Within each of the four groups the keys stand in the order of their first mention. */
  lemma GroupsByFirstMention(ms: seq<AccountMeta>, feePayer: Pubkey, s: bool, w: bool)
    ensures ByFirstMention(ms, Select(ms, feePayer, s, w))
  {
    OrderByFirstMention(ms);
    FilterPairwise(Order(ms), (k: Pubkey) => k != feePayer && Signer(ms, k) == s && Writable(ms, k) == w,
                   (a: Pubkey, b: Pubkey) => Before(ms, a, b));
  }

  // ------------------------------------------------- what compiling must preserve

  predicate SignerAt(m: Message, i: nat) {
    i < m.numSigners
  }

  predicate WritableAt(m: Message, i: nat) {
    if i < m.numSigners then i + m.readonlySigned < m.numSigners
    else i + m.readonlyUnsigned < |m.keys|
  }

  ghost predicate Resolves(keys: seq<Pubkey>, c: CompiledIx, ix: Instruction) {
    && c.program < |keys| && keys[c.program] == ix.programId
    && |c.accounts| == |ix.accounts|
    && (forall j :: 0 <= j < |c.accounts| ==>
          c.accounts[j] < |keys| && keys[c.accounts[j]] == ix.accounts[j].pubkey)
    && c.data == ix.data
  }

  ghost predicate KeysKept(m: Message, ms: seq<AccountMeta>, feePayer: Pubkey) {
    && Distinct(m.keys) && m.keys != [] && m.keys[0] == feePayer
    && forall k :: k in m.keys <==> Mentioned(ms, k)
  }

  ghost predicate RightsKept(m: Message, ms: seq<AccountMeta>) {
    forall i :: 0 <= i < |m.keys| ==>
      SignerAt(m, i) == Signer(ms, m.keys[i]) && WritableAt(m, i) == Writable(ms, m.keys[i])
  }

  ghost predicate IxsKept(m: Message, ixs: seq<Instruction>) {
    && |m.ixs| == |ixs|
    && forall i :: 0 <= i < |ixs| ==> Resolves(m.keys, m.ixs[i], ixs[i])
  }

  /** `m` says exactly what the caller asked for. */
  ghost predicate Faithful(m: Message, feePayer: Pubkey, ixs: seq<Instruction>, blockhash: Pubkey) {
    && m.blockhash == blockhash
    && KeysKept(m, Mentions(feePayer, ixs), feePayer)
    && RightsKept(m, Mentions(feePayer, ixs))
    && IxsKept(m, ixs)
  }

  /** The rights of the key at each position, from the group it stands in. */
  lemma RightsByPosition(ms: seq<AccountMeta>, feePayer: Pubkey, i: nat)
    requires Signer(ms, feePayer) && Writable(ms, feePayer)
    requires i < |AccountKeys(ms, feePayer)|
    ensures var a, b, c := 1 + |Select(ms, feePayer, true, true)|, |Select(ms, feePayer, true, false)|,
                           |Select(ms, feePayer, false, true)|;
      var k := AccountKeys(ms, feePayer)[i];
      && Signer(ms, k) == (i < a + b)
      && Writable(ms, k) == (i < a || a + b <= i < a + b + c)
  {
    SelectMembers(ms, feePayer, true, true);
    SelectMembers(ms, feePayer, true, false);
    SelectMembers(ms, feePayer, false, true);
    SelectMembers(ms, feePayer, false, false);
    var a, b := Select(ms, feePayer, true, true), Select(ms, feePayer, true, false);
    var c, d := Select(ms, feePayer, false, true), Select(ms, feePayer, false, false);
    var k := AccountKeys(ms, feePayer)[i];
    if i == 0 {
    } else if i < 1 + |a| {
      assert k == a[i - 1];
    } else if i < 1 + |a| + |b| {
      assert k == b[i - 1 - |a|];
    } else if i < 1 + |a| + |b| + |c| {
      assert k == c[i - 1 - |a| - |b|];
    } else {
      assert k == d[i - 1 - |a| - |b| - |c|];
    }
  }

  /** The same rights, read off the three header counts before they are cast. */
  lemma RightsFromCounts(ms: seq<AccountMeta>, feePayer: Pubkey, i: nat)
    requires Signer(ms, feePayer) && Writable(ms, feePayer)
    requires i < |AccountKeys(ms, feePayer)|
    ensures var n, k := NumSigners(ms, feePayer), AccountKeys(ms, feePayer)[i];
      && Signer(ms, k) == (i < n)
      && Writable(ms, k) == (if i < n then i + NumReadonlySigned(ms, feePayer) < n
                             else i + NumReadonlyUnsigned(ms, feePayer) < |AccountKeys(ms, feePayer)|)
  {
    HeaderCounts(ms, feePayer);
    RightsByPosition(ms, feePayer, i);
  }

  /** No count is larger than the number of keys, or of keys after the first. */
  lemma CountBounds(ms: seq<AccountMeta>, feePayer: Pubkey)
    requires Signer(ms, feePayer) && Writable(ms, feePayer)
    ensures NumSigners(ms, feePayer) <= |AccountKeys(ms, feePayer)|
    ensures NumReadonlySigned(ms, feePayer) < |AccountKeys(ms, feePayer)|
    ensures NumReadonlyUnsigned(ms, feePayer) < |AccountKeys(ms, feePayer)|
  {
    HeaderCounts(ms, feePayer);
  }

  lemma {:induction false} LowerIxsAt(keys: seq<Pubkey>, ixs: seq<Instruction>)
    requires Covers(keys, ixs)
    ensures |LowerIxs(keys, ixs)| == |ixs|
    ensures forall i :: 0 <= i < |ixs| ==> LowerIxs(keys, ixs)[i] == LowerIx(keys, ixs[i])
  {
    if ixs != [] {
      LowerIxsAt(keys, ixs[1..]);
    }
  }

  /** Both header counts and every index fit their byte. */
  predicate Fits(feePayer: Pubkey, ixs: seq<Instruction>) {
    var ms := Mentions(feePayer, ixs);
    |Order(ms)| <= 256 && |Filter(Order(ms), k => Signer(ms, k))| <= 255
  }

  lemma FeePayerRights(feePayer: Pubkey, ixs: seq<Instruction>)
    ensures Signer(Mentions(feePayer, ixs), feePayer) && Writable(Mentions(feePayer, ixs), feePayer)
  {
    assert Mentions(feePayer, ixs)[0] == AccountMeta(feePayer, true, true);
  }

  /** The key list is as long as the list of distinct mentions, and so are its signers. */
  lemma KeyCounts(ms: seq<AccountMeta>, feePayer: Pubkey)
    requires Signer(ms, feePayer)
    ensures |AccountKeys(ms, feePayer)| == |Order(ms)|
    ensures NumSigners(ms, feePayer) == |Filter(Order(ms), k => Signer(ms, k))|
  {
    AccountKeysMembers(ms, feePayer);
    OrderProperties(ms);
    var keys, order := AccountKeys(ms, feePayer), Order(ms);
    SameLength(keys, order);
    var p := (k: Pubkey) => Signer(ms, k);
    var q := (k: Pubkey) => Signer(ms, k) || k == feePayer;
    FilterAgree(keys, p, q);
    FilterMembers(keys, p);
    FilterMembers(order, p);
    SameLength(Filter(keys, p), Filter(order, p));
  }

  lemma SameLength(a: seq<Pubkey>, b: seq<Pubkey>)
    requires Distinct(a) && Distinct(b) && forall x :: x in a <==> x in b
    ensures |a| == |b|
  {
    DistinctLength(a);
    DistinctLength(b);
    assert (set x | x in a) == (set x | x in b);
  }

  lemma LowerIxResolves(keys: seq<Pubkey>, ix: Instruction)
    requires ix.programId in keys && forall a :: a in ix.accounts ==> a.pubkey in keys
    requires |keys| <= 256
    ensures Resolves(keys, LowerIx(keys, ix), ix)
  {
  }

  lemma LowerKeepsKeys(feePayer: Pubkey, ixs: seq<Instruction>, blockhash: Pubkey)
    ensures KeysKept(Lower(feePayer, ixs, blockhash), Mentions(feePayer, ixs), feePayer)
  {
    FeePayerRights(feePayer, ixs);
    AccountKeysMembers(Mentions(feePayer, ixs), feePayer);
  }

  lemma LowerKeepsIxs(feePayer: Pubkey, ixs: seq<Instruction>, blockhash: Pubkey)
    requires |AccountKeys(Mentions(feePayer, ixs), feePayer)| <= 256
    ensures IxsKept(Lower(feePayer, ixs, blockhash), ixs)
  {
    var m := Lower(feePayer, ixs, blockhash);
    KeysCoverIxs(feePayer, ixs);
    LowerIxsAt(m.keys, ixs);
    forall i | 0 <= i < |ixs| ensures Resolves(m.keys, m.ixs[i], ixs[i]) {
      LowerIxResolves(m.keys, ixs[i]);
    }
  }

  lemma LowerKeepsRights(feePayer: Pubkey, ixs: seq<Instruction>, blockhash: Pubkey)
    requires |AccountKeys(Mentions(feePayer, ixs), feePayer)| <= 256
    requires NumSigners(Mentions(feePayer, ixs), feePayer) <= 255
    ensures RightsKept(Lower(feePayer, ixs, blockhash), Mentions(feePayer, ixs))
  {
    var ms := Mentions(feePayer, ixs);
    var m := Lower(feePayer, ixs, blockhash);
    FeePayerRights(feePayer, ixs);
    CountBounds(ms, feePayer);
    assert m.numSigners == NumSigners(ms, feePayer) && m.readonlySigned == NumReadonlySigned(ms, feePayer);
    assert m.readonlyUnsigned == NumReadonlyUnsigned(ms, feePayer);
    forall i | 0 <= i < |m.keys|
      ensures SignerAt(m, i) == Signer(ms, m.keys[i]) && WritableAt(m, i) == Writable(ms, m.keys[i])
    {
      RightsFromCounts(ms, feePayer, i);
    }
  }

  lemma LowerFaithful(feePayer: Pubkey, ixs: seq<Instruction>, blockhash: Pubkey)
    requires Fits(feePayer, ixs)
    ensures Faithful(Lower(feePayer, ixs, blockhash), feePayer, ixs, blockhash)
  {
    FeePayerRights(feePayer, ixs);
    KeyCounts(Mentions(feePayer, ixs), feePayer);
    LowerKeepsKeys(feePayer, ixs, blockhash);
    LowerKeepsIxs(feePayer, ixs, blockhash);
    LowerKeepsRights(feePayer, ixs, blockhash);
  }

  /** Every account but the fee payer is there because some instruction names it. */
  lemma {:induction false} MentionedSomewhere(ixs: seq<Instruction>, k: Pubkey) returns (i: nat, j: nat)
    requires Mentioned(IxsMentions(ixs), k)
    ensures i < |ixs|
    ensures (j < |ixs[i].accounts| && ixs[i].accounts[j].pubkey == k) || ixs[i].programId == k
  {
    var m :| m in IxsMentions(ixs) && m.pubkey == k;
    if m in InstructionMentions(ixs[0]) {
      i := 0;
      if m in ixs[0].accounts {
        j :| 0 <= j < |ixs[0].accounts| && ixs[0].accounts[j] == m;
      } else {
        j := 0;
      }
    } else {
      i, j := MentionedSomewhere(ixs[1..], k);
      i := i + 1;
    }
  }

  /** An instruction that names the key at position 256 refers to position 0 instead. */
  lemma LowerIxMisses(keys: seq<Pubkey>, ix: Instruction)
    requires ix.programId in keys && forall a :: a in ix.accounts ==> a.pubkey in keys
    requires Distinct(keys) && |keys| > 256
    requires ix.programId == keys[256] || exists a :: a in ix.accounts && a.pubkey == keys[256]
    ensures !Resolves(keys, LowerIx(keys, ix), ix)
  {
    IndexUnique(keys, 256);
    assert keys[0] != keys[256];
    if ix.programId != keys[256] {
      var a :| a in ix.accounts && a.pubkey == keys[256];
      var j :| 0 <= j < |ix.accounts| && ix.accounts[j] == a;
      assert LowerIx(keys, ix).accounts[j] == 0;
    }
  }

  lemma TooManyKeys(feePayer: Pubkey, ixs: seq<Instruction>, blockhash: Pubkey)
    requires |AccountKeys(Mentions(feePayer, ixs), feePayer)| > 256
    ensures !Faithful(Lower(feePayer, ixs, blockhash), feePayer, ixs, blockhash)
  {
    var ms := Mentions(feePayer, ixs);
    var m := Lower(feePayer, ixs, blockhash);
    AccountKeysMembers(ms, feePayer);
    KeysCoverIxs(feePayer, ixs);
    LowerIxsAt(m.keys, ixs);
    var k := m.keys[256];
    assert m.keys[0] != k;
    assert k in AccountKeys(ms, feePayer) && Mentioned(ms, k);
    var a :| a in ms && a.pubkey == k;
    assert a in IxsMentions(ixs);
    var i, j := MentionedSomewhere(ixs, k);
    LowerIxMisses(m.keys, ixs[i]);
  }

  /** With exactly 256 signers the count is printed as zero, and the fee payer loses its signature. */
  lemma TooManySigners(feePayer: Pubkey, ixs: seq<Instruction>, blockhash: Pubkey)
    requires NumSigners(Mentions(feePayer, ixs), feePayer) == 256
    ensures !Faithful(Lower(feePayer, ixs, blockhash), feePayer, ixs, blockhash)
  {
    FeePayerRights(feePayer, ixs);
    assert !SignerAt(Lower(feePayer, ixs, blockhash), 0);
  }

  lemma LowerUnfaithful(feePayer: Pubkey, ixs: seq<Instruction>, blockhash: Pubkey)
    requires !Fits(feePayer, ixs)
    ensures !Faithful(Lower(feePayer, ixs, blockhash), feePayer, ixs, blockhash)
  {
    var ms := Mentions(feePayer, ixs);
    FeePayerRights(feePayer, ixs);
    KeyCounts(ms, feePayer);
    if |AccountKeys(ms, feePayer)| > 256 {
      TooManyKeys(feePayer, ixs, blockhash);
    } else {
      CountBounds(ms, feePayer);
      TooManySigners(feePayer, ixs, blockhash);
    }
  }

  lemma IndexUnique(keys: seq<Pubkey>, i: nat)
    requires Distinct(keys) && i < |keys|
    ensures IndexOf(keys, keys[i]) == i
  {
  }

  /** Compiling and then decoding gives back the caller's request, with nothing left over, if and
      only if there are at most 256 distinct accounts and at most 255 signers among them. */
  lemma CompileRoundTrip(feePayer: Pubkey, ixs: seq<Instruction>, blockhash: Pubkey, rest: seq<byte>)
    ensures var d := Decode(Encode(Lower(feePayer, ixs, blockhash)) + rest);
      && d.Some? && d.value.1 == rest
      && (Faithful(d.value.0, feePayer, ixs, blockhash) <==> Fits(feePayer, ixs))
  {
    EncodeRoundTrip(Lower(feePayer, ixs, blockhash), rest);
    if Fits(feePayer, ixs) {
      LowerFaithful(feePayer, ixs, blockhash);
    } else {
      LowerUnfaithful(feePayer, ixs, blockhash);
    }
  }

  // -------------------------------------------------------------- the compiler

  function KeyOf(flags: Flags, order: seq<Pubkey>, feePayer: Pubkey, s: bool, w: bool): seq<Pubkey> {
    Filter(order, k => k in flags && k != feePayer && flags[k] == (s, w))
  }

  lemma KeyOfIsSelect(flags: Flags, order: seq<Pubkey>, ms: seq<AccountMeta>, feePayer: Pubkey, s: bool, w: bool)
    requires Merged(flags, order, ms)
    ensures KeyOf(flags, order, feePayer, s, w) == Select(ms, feePayer, s, w)
  {
    OrderProperties(ms);
    FilterAgree(order, (k: Pubkey) => k in flags && k != feePayer && flags[k] == (s, w),
                (k: Pubkey) => k != feePayer && Signer(ms, k) == s && Writable(ms, k) == w);
  }

  lemma SeenOneMore(seen: seq<AccountMeta>, accounts: seq<AccountMeta>, j: nat, last: AccountMeta)
    requires j < |accounts|
    ensures (seen + [accounts[j]]) + (accounts[j + 1..] + [last]) == seen + (accounts[j..] + [last])
  {
  }

  lemma SeenAll(seen: seq<AccountMeta>, accounts: seq<AccountMeta>, last: AccountMeta)
    ensures seen + (accounts[|accounts|..] + [last]) == seen + [last]
  {
  }

  method TouchInstruction(flags: Flags, order: seq<Pubkey>, ix: Instruction, ghost ms: seq<AccountMeta>)
    returns (flags': Flags, order': seq<Pubkey>)
    requires Merged(flags, order, ms)
    ensures Merged(flags', order', ms + InstructionMentions(ix))
  {
    flags', order' := flags, order;
    ghost var seen := ms;
    for j := 0 to |ix.accounts|
      invariant Merged(flags', order', seen)
      invariant seen + (ix.accounts[j..] + [AccountMeta(ix.programId, false, false)]) == ms + InstructionMentions(ix)
    {
      flags', order' := Touch(flags', order', ix.accounts[j], seen);
      SeenOneMore(seen, ix.accounts, j, AccountMeta(ix.programId, false, false));
      seen := seen + [ix.accounts[j]];
    }
    flags', order' := Touch(flags', order', AccountMeta(ix.programId, false, false), seen);
    SeenAll(seen, ix.accounts, AccountMeta(ix.programId, false, false));
  }

  lemma MentionsOneMore(ms: seq<AccountMeta>, ixs: seq<Instruction>, i: nat)
    requires i < |ixs|
    ensures (ms + InstructionMentions(ixs[i])) + IxsMentions(ixs[i + 1..]) == ms + IxsMentions(ixs[i..])
  {
    assert ixs[i..][0] == ixs[i] && ixs[i..][1..] == ixs[i + 1..];
    Assoc(ms, InstructionMentions(ixs[i]), IxsMentions(ixs[i + 1..]));
  }

  method MergeFlags(feePayer: Pubkey, ixs: seq<Instruction>) returns (flags: Flags, order: seq<Pubkey>)
    ensures Merged(flags, order, Mentions(feePayer, ixs))
  {
    ghost var ms := [AccountMeta(feePayer, true, true)];
    flags, order := Touch(map[], [], AccountMeta(feePayer, true, true), []);
    for i := 0 to |ixs|
      invariant Merged(flags, order, ms)
      invariant ms + IxsMentions(ixs[i..]) == Mentions(feePayer, ixs)
    {
      flags, order := TouchInstruction(flags, order, ixs[i], ms);
      MentionsOneMore(ms, ixs, i);
      ms := ms + InstructionMentions(ixs[i]);
    }
    assert ms + [] == ms;
  }

  /** The three counts, computed from the table as the source does. */
  lemma CountsFromFlags(flags: Flags, order: seq<Pubkey>, ms: seq<AccountMeta>, feePayer: Pubkey)
    requires Merged(flags, order, ms) && Mentioned(ms, feePayer)
    ensures var keys := AccountKeys(ms, feePayer);
      && |Filter(keys, k => k in flags && (flags[k].0 || k == feePayer))| == NumSigners(ms, feePayer)
      && |Filter(keys, k => k in flags && flags[k].0 && !flags[k].1 && k != feePayer)|
           == NumReadonlySigned(ms, feePayer)
      && |Filter(keys, k => k in flags && !flags[k].0 && !flags[k].1)| == NumReadonlyUnsigned(ms, feePayer)
  {
    var keys := AccountKeys(ms, feePayer);
    AccountKeysMembers(ms, feePayer);
    FilterAgree(keys, (k: Pubkey) => k in flags && (flags[k].0 || k == feePayer),
                (k: Pubkey) => Signer(ms, k) || k == feePayer);
    FilterAgree(keys, (k: Pubkey) => k in flags && flags[k].0 && !flags[k].1 && k != feePayer,
                (k: Pubkey) => Signer(ms, k) && !Writable(ms, k) && k != feePayer);
    FilterAgree(keys, (k: Pubkey) => k in flags && !flags[k].0 && !flags[k].1,
                (k: Pubkey) => !Signer(ms, k) && !Writable(ms, k));
  }

  method CompileMessage(feePayer: Pubkey, ixs: seq<Instruction>, blockhash: Pubkey) returns (msg: seq<byte>)
    ensures msg == Encode(Lower(feePayer, ixs, blockhash))
  {
    ghost var ms := Mentions(feePayer, ixs);
    ghost var m := Lower(feePayer, ixs, blockhash);
    var flags, order := MergeFlags(feePayer, ixs);
    KeyOfIsSelect(flags, order, ms, feePayer, true, true);
    KeyOfIsSelect(flags, order, ms, feePayer, true, false);
    KeyOfIsSelect(flags, order, ms, feePayer, false, true);
    KeyOfIsSelect(flags, order, ms, feePayer, false, false);
    var keys := [feePayer] + KeyOf(flags, order, feePayer, true, true)
      + KeyOf(flags, order, feePayer, true, false)
      + KeyOf(flags, order, feePayer, false, true)
      + KeyOf(flags, order, feePayer, false, false);
    assert keys == m.keys;
    FeePayerRights(feePayer, ixs);
    CountsFromFlags(flags, order, ms, feePayer);
    var ns := |Filter(keys, k => k in flags && (flags[k].0 || k == feePayer))|;
    var ros := |Filter(keys, k => k in flags && flags[k].0 && !flags[k].1 && k != feePayer)|;
    var rou := |Filter(keys, k => k in flags && !flags[k].0 && !flags[k].1)|;
    KeysCoverIxs(feePayer, ixs);
    msg := PrintMessage(keys, ns % 256, ros % 256, rou % 256, blockhash, ixs);
  }

  method PrintMessage(keys: seq<Pubkey>, ns: byte, ros: byte, rou: byte, blockhash: Pubkey, ixs: seq<Instruction>)
    returns (msg: seq<byte>)
    requires Covers(keys, ixs)
    ensures msg == Encode(Message(ns, ros, rou, keys, blockhash, LowerIxs(keys, ixs)))
  {
    LowerIxsAt(keys, ixs);
    msg := [ns, ros, rou];
    msg := PutShortvec(|keys|, msg);
    msg := PrintKeys(keys, msg);
    msg := msg + blockhash;
    msg := PutShortvec(|ixs|, msg);
    msg := PrintIxs(keys, ixs, msg);
  }

  method PrintKeys(keys: seq<Pubkey>, out: seq<byte>) returns (msg: seq<byte>)
    ensures msg == out + Flatten(keys)
  {
    msg := out;
    for i := 0 to |keys|
      invariant msg + Flatten(keys[i..]) == out + Flatten(keys)
    {
      assert keys[i..][1..] == keys[i + 1..];
      assert msg + Flatten(keys[i..]) == (msg + keys[i]) + Flatten(keys[i + 1..]);
      msg := msg + keys[i];
    }
  }

  method PrintIxs(keys: seq<Pubkey>, ixs: seq<Instruction>, out: seq<byte>) returns (msg: seq<byte>)
    requires Covers(keys, ixs)
    ensures msg == out + EncodeIxs(LowerIxs(keys, ixs))
  {
    msg := out;
    for i := 0 to |ixs|
      invariant msg + EncodeIxs(LowerIxs(keys, ixs[i..])) == out + EncodeIxs(LowerIxs(keys, ixs))
    {
      assert ixs[i..][1..] == ixs[i + 1..];
      ghost var ix := EncodeIx(LowerIx(keys, ixs[i]));
      ghost var tail := EncodeIxs(LowerIxs(keys, ixs[i + 1..]));
      assert EncodeIxs(LowerIxs(keys, ixs[i..])) == ix + tail by {
        assert LowerIxs(keys, ixs[i..])[1..] == LowerIxs(keys, ixs[i + 1..]);
      }
      assert msg + (ix + tail) == (msg + ix) + tail;
      msg := PrintIx(keys, ixs[i], msg);
    }
  }

  method PrintIx(keys: seq<Pubkey>, ix: Instruction, out: seq<byte>) returns (msg: seq<byte>)
    requires ix.programId in keys && forall a :: a in ix.accounts ==> a.pubkey in keys
    ensures msg == out + EncodeIx(LowerIx(keys, ix))
  {
    ghost var c := LowerIx(keys, ix);
    msg := out + [IndexOf(keys, ix.programId) % 256];
    msg := PutShortvec(|ix.accounts|, msg);
    msg := PrintAccounts(keys, ix, msg);
    msg := PutShortvec(|ix.data|, msg);
    msg := msg + ix.data;
    Together(out, [c.program], Shortvec(|ix.accounts|), c.accounts, Shortvec(|ix.data|), ix.data);
  }

  lemma Together(o: seq<byte>, a: seq<byte>, b: seq<byte>, c: seq<byte>, d: seq<byte>, e: seq<byte>)
    ensures ((((o + a) + b) + c) + d) + e == o + (a + (b + (c + (d + e))))
  {
    Assoc(((o + a) + b) + c, d, e);
    Assoc((o + a) + b, c, d + e);
    Assoc(o + a, b, c + (d + e));
    Assoc(o, a, b + (c + (d + e)));
  }

  method PrintAccounts(keys: seq<Pubkey>, ix: Instruction, out: seq<byte>) returns (msg: seq<byte>)
    requires ix.programId in keys && forall a :: a in ix.accounts ==> a.pubkey in keys
    ensures msg == out + LowerIx(keys, ix).accounts
  {
    ghost var indices := LowerIx(keys, ix).accounts;
    msg := out;
    for j := 0 to |ix.accounts|
      invariant msg == out + indices[..j]
    {
      msg := msg + [IndexOf(keys, ix.accounts[j].pubkey) % 256];
      TakeOneMore(indices, j + 1);
      Assoc(out, indices[..j], [indices[j]]);
    }
    assert indices[..|ix.accounts|] == indices;
  }
}
