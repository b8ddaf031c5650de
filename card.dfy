/** The MFRC522 reader and the card in its field, as the card handler sees
    them: a card type, a block memory, which operations fail, scripted
    answers to the wake-up and serial-number requests, and a log of the
    operations issued. Modulation, anti-collision and Crypto1 are not
    modelled: an operation either succeeds or fails. */
module Card {
  import opened Bytes

  /** `MFRC522::PICC_Type`, as returned by `PICC_GetType(uid.sak)`. */
  datatype PiccType =
    | Unknown | Iso14443_4 | Iso18092 | MifareMini | Mifare1K | Mifare4K
    | MifareUltralight | MifarePlus | MifareDesfire | Tnp3xxx | NotComplete

  /** MIFARE Classic Mini, 1K and 4K: sectors of four 16-byte blocks. */
  predicate IsClassic(t: PiccType)
  {
    t == MifareMini || t == Mifare1K || t == Mifare4K
  }

  /** The types both transfer paths accept. */
  predicate Supported(t: PiccType)
  {
    IsClassic(t) || t == MifareUltralight
  }

  /** Bytes of card data the transfer paths use per block: 16 on Classic,
      4 (one page) on Ultralight. */
  function BlockSize(t: PiccType): nat
  {
    if IsClassic(t) then 16 else 4
  }

  /** `k * BlockSize(t)`, written out per card type. */
  function Offset(t: PiccType, k: nat): nat
  {
    if IsClassic(t) then 16 * k else 4 * k
  }

  lemma OffsetIsProduct(t: PiccType, k: nat)
    ensures Offset(t, k) == k * BlockSize(t)
  {
  }

  /** The unit of card memory: a 16-byte block, or a 4-byte Ultralight page. */
  function NativeSize(t: PiccType): nat
  {
    if t == MifareUltralight then 4 else 16
  }

  /** Bytes in a `MIFARE_Read` answer and in a `MIFARE_Write` payload. */
  const FRAME: nat := 16

  /** Maximum length of a card UID (`uid.uidByte` holds 10 bytes). */
  const MAX_UID: nat := 10

  /** The calls into the driver that the card handler makes. */
  datatype Op =
    | RequestA                          // PICC_IsNewCardPresent
    | WakeupA                           // PICC_WakeupA
    | ReadSerial                        // PICC_ReadCardSerial
    | Authenticate(block: byte)         // PCD_Authenticate with key A
    | NtagAuthenticate                  // PCD_NTAG216_AUTH
    | Read(block: byte)                 // MIFARE_Read
    | Write(block: byte, data: seq<byte>) // MIFARE_Write of 16 bytes
    | Halt                              // PICC_HaltA
    | StopCrypto                        // PCD_StopCrypto1

  /** Which operations the card refuses: key-A authentication of the listed
      sectors, the Ultralight password, reads and writes of the listed
      blocks. */
  datatype Faults = Faults(
    lockedSectors: set<int>,
    ntagRejects: bool,
    unreadable: set<byte>,
    unwritable: set<byte>)

  /** Whether `op` returns `STATUS_OK`. */
  predicate OpOk(f: Faults, op: Op)
  {
    match op
    case Authenticate(b) => b as int / 4 !in f.lockedSectors
    case NtagAuthenticate => !f.ntagRejects
    case Read(b) => b !in f.unreadable
    case Write(b, _) => b !in f.unwritable
    case _ => true
  }

  /** Card memory by block number; a block never written reads as zeros. */
  type Memory = map<byte, seq<byte>>

  function Stored(mem: Memory, t: PiccType, b: byte): (r: seq<byte>)
    ensures |r| == NativeSize(t)
  {
    if b in mem && |mem[b]| == NativeSize(t) then mem[b] else Zeros(NativeSize(t))
  }

  function PageAfter(b: byte, i: nat): byte
  {
    ((b as int + i) % 256) as byte
  }

  /** The 16 bytes `MIFARE_Read(b)` returns: block `b`, or on Ultralight
      cards the four pages from `b` on. */
  function ReadImage(mem: Memory, t: PiccType, b: byte): (r: seq<byte>)
    ensures |r| == FRAME
    ensures r[..NativeSize(t)] == Stored(mem, t, b)
  {
    if t == MifareUltralight then
      Stored(mem, t, b) + Stored(mem, t, PageAfter(b, 1))
        + Stored(mem, t, PageAfter(b, 2)) + Stored(mem, t, PageAfter(b, 3))
    else Stored(mem, t, b)
  }

  /** The effect of a successful `MIFARE_Write(b, data, 16)`: a Classic
      block takes the 16 bytes, an Ultralight page the first four. */
  function Store(mem: Memory, t: PiccType, b: byte, data: seq<byte>): (m: Memory)
    requires |data| == FRAME
    ensures Stored(m, t, b) == data[..NativeSize(t)]
    ensures forall x :: x != b ==> Stored(m, t, x) == Stored(mem, t, x)
  {
    mem[b := data[..NativeSize(t)]]
  }

  /** The memory after the writes among `ops`, applied in order. */
  function ApplyWrites(mem: Memory, t: PiccType, ops: seq<Op>): Memory
  {
    if ops == [] then mem
    else
      var m := ApplyWrites(mem, t, ops[..|ops| - 1]);
      var last := ops[|ops| - 1];
      if last.Write? && |last.data| == FRAME then Store(m, t, last.block, last.data) else m
  }

  /** The write operations of `ops`, in order. */
  function WritesOf(ops: seq<Op>): (w: seq<Op>)
    ensures forall i :: 0 <= i < |w| ==> w[i].Write?
  {
    if ops == [] then []
    else WritesOf(ops[..|ops| - 1]) + (if ops[|ops| - 1].Write? then [ops[|ops| - 1]] else [])
  }

  lemma {:induction false} WritesOfAppend(a: seq<Op>, b: seq<Op>)
    ensures WritesOf(a + b) == WritesOf(a) + WritesOf(b)
  {
    if b == [] {
      assert a + b == a;
    } else {
      assert (a + b)[..|a + b| - 1] == a + b[..|b| - 1];
      assert (a + b)[|a + b| - 1] == b[|b| - 1];
      WritesOfAppend(a, b[..|b| - 1]);
    }
  }

  lemma {:induction false} WritesOfWrites(ops: seq<Op>)
    requires forall i :: 0 <= i < |ops| ==> ops[i].Write?
    ensures WritesOf(ops) == ops
  {
    if ops != [] {
      WritesOfWrites(ops[..|ops| - 1]);
      assert ops[..|ops| - 1] + [ops[|ops| - 1]] == ops;
    }
  }

  /** The operations of a loop, iteration after iteration. */
  function Concat(steps: seq<seq<Op>>): seq<Op>
  {
    if steps == [] then [] else Concat(steps[..|steps| - 1]) + steps[|steps| - 1]
  }

  /** Appending to a log in two steps appends the concatenation. */
  lemma AppendAssoc(a: seq<Op>, b: seq<Op>, c: seq<Op>)
    ensures a + b + c == a + (b + c)
  {
  }

  /** A log that has seen the first `k` operations of `ops`, and then
      operation `k`, has seen the first `k + 1`. */
  lemma LogSnoc(log: seq<Op>, ops: seq<Op>, k: nat)
    requires k < |ops|
    ensures log + ops[..k] + [ops[k]] == log + ops[..k + 1]
  {
    assert ops[..k] + [ops[k]] == ops[..k + 1];
  }

  /** The first `k + 1` operations are the first `k` and operation `k`. */
  lemma PrefixSnoc(ops: seq<Op>, k: nat)
    requires k < |ops|
    ensures ops[..k + 1] == ops[..k] + [ops[k]]
  {
  }

  /** One more write stores its frame on top of the earlier ones. */
  lemma ApplyWritesSnoc(mem: Memory, t: PiccType, ops: seq<Op>, b: byte, data: seq<byte>)
    requires |data| == FRAME
    ensures ApplyWrites(mem, t, ops + [Write(b, data)]) == Store(ApplyWrites(mem, t, ops), t, b, data)
  {
    assert (ops + [Write(b, data)])[..|ops|] == ops;
  }

  /** One more iteration appends its operations. */
  lemma ConcatSnoc(steps: seq<seq<Op>>, k: nat)
    requires k < |steps|
    ensures Concat(steps[..k + 1]) == Concat(steps[..k]) + steps[k]
  {
    assert steps[..k + 1][..k] == steps[..k];
  }

  /** A loop whose iteration `k` writes exactly `ws[k]` writes `ws`. */
  lemma {:induction false} WritesOfConcat(steps: seq<seq<Op>>, ws: seq<Op>)
    requires |ws| == |steps|
    requires forall k :: 0 <= k < |steps| ==> WritesOf(steps[k]) == [ws[k]]
    ensures WritesOf(Concat(steps)) == ws
  {
    if steps != [] {
      var n := |steps| - 1;
      WritesOfConcat(steps[..n], ws[..n]);
      WritesOfAppend(Concat(steps[..n]), steps[n]);
      assert ws[..n] + [ws[n]] == ws;
    }
  }

  /** A loop runs without failure exactly when each iteration does. */
  lemma {:induction false} AllOkConcat(f: Faults, steps: seq<seq<Op>>)
    ensures AllOk(f, Concat(steps)) <==> forall k :: 0 <= k < |steps| ==> AllOk(f, steps[k])
  {
    if steps != [] {
      var n := |steps| - 1;
      AllOkConcat(f, steps[..n]);
      AllOkAppend(f, Concat(steps[..n]), steps[n]);
      assert forall k :: 0 <= k < n ==> steps[..n][k] == steps[k];
    }
  }

  lemma AllOkAppend(f: Faults, a: seq<Op>, b: seq<Op>)
    ensures AllOk(f, a + b) <==> AllOk(f, a) && AllOk(f, b)
  {
    assert forall i :: 0 <= i < |a| ==> (a + b)[i] == a[i];
    assert forall i :: 0 <= i < |b| ==> (a + b)[|a| + i] == b[i];
  }

  /** The first `k + 1` operations succeed when the first `k` and
      operation `k` do. */
  lemma AllOkSnoc(f: Faults, ops: seq<Op>, k: nat)
    requires k < |ops| && AllOk(f, ops[..k]) && OpOk(f, ops[k])
    ensures AllOk(f, ops[..k + 1])
  {
    assert forall i :: 0 <= i < k ==> ops[..k + 1][i] == ops[..k][i];
  }

  /** A loop whose first `k` iterations succeed and whose iteration `k`
      fails at its operation `j` issues the first `k` iterations and
      iteration `k` up to that operation. */
  lemma ExecutedConcat(f: Faults, steps: seq<seq<Op>>, k: nat, j: nat)
    requires k < |steps| && j < |steps[k]|
    requires AllOk(f, Concat(steps[..k])) && AllOk(f, steps[k][..j]) && !OpOk(f, steps[k][j])
    ensures Executed(f, Concat(steps)) == Concat(steps[..k]) + steps[k][..j + 1]
    ensures Completed(f, Concat(steps)) == Concat(steps[..k]) + steps[k][..j]
    ensures !AllOk(f, Concat(steps))
  {
    var pre := Concat(steps[..k]);
    var all := Concat(steps);
    ConcatPrefix(steps, k + 1);
    var rest :| all == Concat(steps[..k + 1]) + rest;
    ConcatSnoc(steps, k);
    assert all == pre + steps[k] + rest;
    var n := |pre| + j;
    assert all[..n] == pre + steps[k][..j];
    AllOkAppend(f, pre, steps[k][..j]);
    assert all[n] == steps[k][j];
    FailIndexAt(f, all, n);
    assert all[..n + 1] == pre + steps[k][..j + 1];
  }

  /** The operations of the first `k` iterations begin those of the loop. */
  lemma {:induction false} ConcatPrefix(steps: seq<seq<Op>>, k: nat)
    requires k <= |steps|
    ensures exists rest :: Concat(steps) == Concat(steps[..k]) + rest
  {
    if k < |steps| {
      var n := |steps| - 1;
      ConcatPrefix(steps[..n], k);
      assert steps[..n][..k] == steps[..k];
      var rest :| Concat(steps[..n]) == Concat(steps[..k]) + rest;
      assert Concat(steps) == Concat(steps[..k]) + (rest + steps[n]);
    } else {
      assert steps[..k] == steps;
      assert Concat(steps) == Concat(steps[..k]) + [];
    }
  }

  /** Only the writes of a sequence change the memory. */
  lemma {:induction false} ApplyWritesOfWrites(mem: Memory, t: PiccType, ops: seq<Op>)
    ensures ApplyWrites(mem, t, ops) == ApplyWrites(mem, t, WritesOf(ops))
  {
    if ops != [] {
      var init, last := ops[..|ops| - 1], ops[|ops| - 1];
      ApplyWritesOfWrites(mem, t, init);
      var w := WritesOf(ops);
      if last.Write? {
        assert w[..|w| - 1] == WritesOf(init) && w[|w| - 1] == last;
      } else {
        assert w == WritesOf(init);
      }
    }
  }

  /** Whether `op` writes block `b`. */
  predicate Touches(op: Op, b: byte)
  {
    op.Write? && op.block == b
  }

  /** A block no write of `ops` touches keeps its contents. */
  lemma {:induction false} ApplyWritesUntouched(mem: Memory, t: PiccType, ops: seq<Op>, b: byte)
    requires forall i :: 0 <= i < |ops| ==> !Touches(ops[i], b)
    ensures Stored(ApplyWrites(mem, t, ops), t, b) == Stored(mem, t, b)
  {
    if ops != [] {
      ApplyWritesUntouched(mem, t, ops[..|ops| - 1], b);
    }
  }

  /** A block holds what the last write to it stored. */
  lemma {:induction false} ApplyWritesLast(mem: Memory, t: PiccType, ops: seq<Op>, i: nat)
    requires i < |ops| && ops[i].Write? && |ops[i].data| == FRAME
    requires forall j :: i < j < |ops| ==> !Touches(ops[j], ops[i].block)
    ensures Stored(ApplyWrites(mem, t, ops), t, ops[i].block) == ops[i].data[..NativeSize(t)]
  {
    if i < |ops| - 1 {
      ApplyWritesLast(mem, t, ops[..|ops| - 1], i);
    }
  }

  predicate AllOk(f: Faults, ops: seq<Op>)
  {
    forall i :: 0 <= i < |ops| ==> OpOk(f, ops[i])
  }

  lemma AllOkSingle(f: Faults, op: Op)
    ensures AllOk(f, [op]) == OpOk(f, op)
  {
    assert [op][0] == op;
  }

  /** Position of the first operation of `ops` that fails, or `|ops|`. */
  function FailIndex(f: Faults, ops: seq<Op>): (n: nat)
    ensures n <= |ops|
    ensures n < |ops| <==> !AllOk(f, ops)
  {
    if ops == [] then 0
    else if !OpOk(f, ops[0]) then 0
    else 1 + FailIndex(f, ops[1..])
  }

  /** Every operation before the first failure succeeds, and the one at
      the failure index fails. */
  lemma {:induction false} FailIndexSpec(f: Faults, ops: seq<Op>)
    ensures var n := FailIndex(f, ops);
      AllOk(f, ops[..n]) && (n < |ops| ==> !OpOk(f, ops[n]))
  {
    if ops != [] && OpOk(f, ops[0]) {
      var n := FailIndex(f, ops);
      FailIndexSpec(f, ops[1..]);
      assert forall i :: 1 <= i < n ==> ops[..n][i] == ops[1..][..n - 1][i - 1];
      if n < |ops| {
        assert ops[n] == ops[1..][n - 1];
      }
    }
  }

  /** What a sequence that gives up at the first failure issues: every
      operation up to and including the first that fails. */
  function Executed(f: Faults, ops: seq<Op>): seq<Op>
  {
    ops[..Min(FailIndex(f, ops) + 1, |ops|)]
  }

  /** The operations that succeeded before the first failure. */
  function Completed(f: Faults, ops: seq<Op>): seq<Op>
  {
    ops[..FailIndex(f, ops)]
  }

  /** A sequence none of whose operations fails is carried out entirely. */
  lemma FailIndexAllOk(f: Faults, ops: seq<Op>)
    requires AllOk(f, ops)
    ensures FailIndex(f, ops) == |ops|
    ensures Executed(f, ops) == ops && Completed(f, ops) == ops
  {
    FailIndexSpec(f, ops);
  }

  /** What takes effect is a prefix of what is issued, which is a prefix of
      the sequence; a sequence none of whose operations fails is issued
      and takes effect entirely. */
  lemma ExecutedOutcome(f: Faults, ops: seq<Op>)
    ensures Completed(f, ops) <= Executed(f, ops) <= ops
    ensures AllOk(f, ops) ==> Executed(f, ops) == ops && Completed(f, ops) == ops
  {
    if AllOk(f, ops) {
      FailIndexAllOk(f, ops);
    }
  }

  /** A sequence stops at the first operation that fails. */
  lemma FailIndexAt(f: Faults, ops: seq<Op>, n: nat)
    requires n < |ops| && AllOk(f, ops[..n]) && !OpOk(f, ops[n])
    ensures FailIndex(f, ops) == n && !AllOk(f, ops)
    ensures Executed(f, ops) == ops[..n + 1] && Completed(f, ops) == ops[..n]
  {
    var m := FailIndex(f, ops);
    FailIndexSpec(f, ops);
    assert forall i :: 0 <= i < n ==> ops[..n][i] == ops[i];
    assert forall i :: 0 <= i < m ==> ops[..m][i] == ops[i];
  }

  /** After a run of operations that all succeed, a sequence goes on as
      its remainder would on its own. */
  lemma ExecutedAfter(f: Faults, pre: seq<Op>, rest: seq<Op>)
    requires AllOk(f, pre)
    ensures AllOk(f, pre + rest) <==> AllOk(f, rest)
    ensures Executed(f, pre + rest) == pre + Executed(f, rest)
    ensures Completed(f, pre + rest) == pre + Completed(f, rest)
  {
    AllOkAppend(f, pre, rest);
    if AllOk(f, rest) {
      FailIndexAllOk(f, rest);
      FailIndexAllOk(f, pre + rest);
    } else {
      var n := FailIndex(f, rest);
      FailIndexSpec(f, rest);
      var all := pre + rest;
      assert all[..|pre| + n] == pre + rest[..n];
      AllOkAppend(f, pre, rest[..n]);
      FailIndexAt(f, all, |pre| + n);
      assert all[..|pre| + n + 1] == pre + rest[..n + 1];
    }
  }

  /** A sequence whose first part fails stops inside that part. */
  lemma ExecutedBefore(f: Faults, pre: seq<Op>, rest: seq<Op>)
    requires !AllOk(f, pre)
    ensures !AllOk(f, pre + rest)
    ensures Executed(f, pre + rest) == Executed(f, pre)
    ensures Completed(f, pre + rest) == Completed(f, pre)
  {
    AllOkAppend(f, pre, rest);
    var n := FailIndex(f, pre);
    FailIndexSpec(f, pre);
    var all := pre + rest;
    assert all[..n] == pre[..n];
    FailIndexAt(f, all, n);
    assert all[..n + 1] == pre[..n + 1];
  }

  /** The memory after two runs of writes is that after their
      concatenation. */
  lemma {:induction false} ApplyWritesAppend(mem: Memory, t: PiccType, a: seq<Op>, b: seq<Op>)
    ensures ApplyWrites(ApplyWrites(mem, t, a), t, b) == ApplyWrites(mem, t, a + b)
  {
    if b == [] {
      assert a + b == a;
    } else {
      ApplyWritesAppend(mem, t, a, b[..|b| - 1]);
      assert (a + b)[..|a + b| - 1] == a + b[..|b| - 1];
    }
  }

  /** What the card answers to `PICC_ReadCardSerial`. */
  datatype SerialAnswer = NoSerial | Serial(uid: seq<byte>)

  /** Answer number `i` of a script; past its end the card stays silent. */
  function Answer(script: seq<bool>, i: nat): bool
  {
    i < |script| && script[i]
  }

  function SerialAt(script: seq<SerialAnswer>, i: nat): SerialAnswer
  {
    if i < |script| then script[i] else NoSerial
  }

  /** The reader (`MFRC522`) with the card in its field. The answers to
      the requests that involve the radio link are scripts consumed one
      entry per call; every call is appended to `log`. */
  class Reader {
    var piccType: PiccType
    var memory: Memory
    var faults: Faults
    /** `uid.size` and `uid.uidByte`, as left by the last serial read. */
    var uid: seq<byte>
    var requests: seq<bool>
    var requestIndex: nat
    var wakeups: seq<bool>
    var wakeIndex: nat
    var serials: seq<SerialAnswer>
    var serialIndex: nat
    var log: seq<Op>

    /** A UID has at most ten bytes. */
    ghost predicate Valid()
      reads this`uid, this`serials
    {
      && |uid| <= MAX_UID
      && forall i :: 0 <= i < |serials| && serials[i].Serial? ==> |serials[i].uid| <= MAX_UID
    }

    /** The card and the scripted answers: what no operation changes. */
    ghost function Fixed(): (PiccType, Faults, seq<bool>, seq<bool>, seq<SerialAnswer>)
      reads this`piccType, this`faults, this`requests, this`wakeups, this`serials
    {
      (piccType, faults, requests, wakeups, serials)
    }

    method RequestA() returns (ok: bool)
      modifies this`requestIndex, this`log
      ensures ok == Answer(requests, old(requestIndex))
      ensures requestIndex == old(requestIndex) + 1
      ensures log == old(log) + [Op.RequestA]
    {
      ok := Answer(requests, requestIndex);
      requestIndex := requestIndex + 1;
      log := log + [Op.RequestA];
    }

    method WakeupA() returns (ok: bool)
      modifies this`wakeIndex, this`log
      ensures ok == Answer(wakeups, old(wakeIndex))
      ensures wakeIndex == old(wakeIndex) + 1
      ensures log == old(log) + [Op.WakeupA]
    {
      ok := Answer(wakeups, wakeIndex);
      wakeIndex := wakeIndex + 1;
      log := log + [Op.WakeupA];
    }

    method ReadCardSerial() returns (ok: bool)
      requires Valid()
      modifies this`uid, this`serialIndex, this`log
      ensures Valid()
      ensures var a := SerialAt(serials, old(serialIndex));
        ok == a.Serial? && uid == (if ok then a.uid else old(uid))
      ensures serialIndex == old(serialIndex) + 1
      ensures log == old(log) + [Op.ReadSerial]
    {
      var a := SerialAt(serials, serialIndex);
      ok := a.Serial?;
      if ok {
        uid := a.uid;
      }
      serialIndex := serialIndex + 1;
      log := log + [Op.ReadSerial];
    }

    method Authenticate(block: byte) returns (ok: bool)
      modifies this`log
      ensures ok == OpOk(faults, Op.Authenticate(block))
      ensures log == old(log) + [Op.Authenticate(block)]
    {
      ok := OpOk(faults, Op.Authenticate(block));
      log := log + [Op.Authenticate(block)];
    }

    method NtagAuthenticate() returns (ok: bool)
      modifies this`log
      ensures ok == OpOk(faults, Op.NtagAuthenticate)
      ensures log == old(log) + [Op.NtagAuthenticate]
    {
      ok := OpOk(faults, Op.NtagAuthenticate);
      log := log + [Op.NtagAuthenticate];
    }

    method Read(block: byte) returns (ok: bool, data: seq<byte>)
      modifies this`log
      ensures ok == OpOk(faults, Op.Read(block))
      ensures data == if ok then ReadImage(memory, piccType, block) else Zeros(FRAME)
      ensures log == old(log) + [Op.Read(block)]
    {
      ok := OpOk(faults, Op.Read(block));
      data := if ok then ReadImage(memory, piccType, block) else Zeros(FRAME);
      log := log + [Op.Read(block)];
    }

    method Write(block: byte, data: seq<byte>) returns (ok: bool)
      requires |data| == FRAME
      modifies this`memory, this`log
      ensures ok == OpOk(faults, Op.Write(block, data))
      ensures memory == if ok then Store(old(memory), piccType, block, data) else old(memory)
      ensures log == old(log) + [Op.Write(block, data)]
    {
      ok := OpOk(faults, Op.Write(block, data));
      if ok {
        memory := Store(memory, piccType, block, data);
      }
      log := log + [Op.Write(block, data)];
    }

    method HaltA()
      modifies this`log
      ensures log == old(log) + [Op.Halt]
    {
      log := log + [Op.Halt];
    }

    method StopCrypto1()
      modifies this`log
      ensures log == old(log) + [Op.StopCrypto]
    {
      log := log + [Op.StopCrypto];
    }
  }
}
