/** The two transfer paths of the card handler as functions of the card:
    what `ReadCardInformation` returns and issues for a given card, and the
    sequence of operations `WriteCardInformation` issues for a given record.
    The handler's methods are proved to carry these out; the lemmas here
    state what the paths promise. */
module Transfer {
  import opened Bytes
  import opened Layout
  import opened Addressing
  import opened Card

  // =====================================================================
  // Shared per-type parameters
  // =====================================================================

  /** First block of the information block for the card type. */
  function InfoStart(cfg: Config, t: PiccType): byte
  {
    if IsClassic(t) then cfg.infoBlockClassic else cfg.infoBlockUltralight
  }

  /** First block of the filename for the card type. */
  function NameStart(cfg: Config, t: PiccType): byte
  {
    if IsClassic(t) then cfg.nameBlockClassic else cfg.nameBlockUltralight
  }

  /** `a / b`, plus one when there is a remainder (the write path's block
      counts). */
  function RoundUpDiv(a: nat, b: nat): nat
    requires b > 0
  {
    a / b + (if a % b != 0 then 1 else 0)
  }

  lemma RoundUpDivBounds(a: nat, b: nat)
    requires b > 0
    ensures a <= RoundUpDiv(a, b) * b < a + b
    ensures a > 0 ==> (RoundUpDiv(a, b) - 1) * b < a
  {
    var q, r := a / b, a % b;
    assert a == q * b + r;
    if r != 0 {
      assert (q + 1) * b == q * b + b;
    }
  }

  /** The position after `k` chunks of `chunk` bytes. */
  function ChunkPosition(k: nat, chunk: nat): nat
  {
    if k == 0 then 0 else ChunkPosition(k - 1, chunk) + chunk
  }

  lemma {:induction false} ChunkPositionIsProduct(k: nat, chunk: nat)
    ensures ChunkPosition(k, chunk) == k * chunk
  {
    if k > 0 {
      ChunkPositionIsProduct(k - 1, chunk);
      assert (k - 1) * chunk + chunk == k * chunk;
    }
  }

  /** A loop that adds `chunk` to a position until it reaches `len` runs
      exactly `RoundUpDiv(len, chunk)` times: the position after `k`
      chunks is still short of `len` exactly when `k` is below that. */
  lemma ChunksBeforeEnd(len: nat, chunk: nat, k: nat)
    requires chunk > 0
    ensures ChunkPosition(k, chunk) < len <==> k < RoundUpDiv(len, chunk)
  {
    var n := RoundUpDiv(len, chunk);
    ChunkPositionIsProduct(k, chunk);
    RoundUpDivBounds(len, chunk);
    if k < n {
      MulMono(k, n - 1, chunk);
    } else {
      MulMono(n, k, chunk);
    }
  }

  /** The last chunk starts inside the text and ends at or past its end. */
  lemma ChunkCountCovers(len: nat, chunk: nat)
    requires 0 < len && 0 < chunk
    ensures var n := RoundUpDiv(len, chunk);
      0 < n && ChunkPosition(n - 1, chunk) < len <= ChunkPosition(n, chunk)
  {
    var n := RoundUpDiv(len, chunk);
    ChunksBeforeEnd(len, chunk, n);
    ChunksBeforeEnd(len, chunk, n - 1);
  }

  lemma MulMono(x: nat, y: nat, b: nat)
    requires x <= y
    ensures x * b <= y * b
  {
  }


  // =====================================================================
  // Read path
  // =====================================================================

  /** Why a read is rejected. */
  datatype ReadError =
    | SizeMismatch      // the structure does not have INFORMATION_BLOCK_SIZE bytes
    | UnsupportedType   // not MIFARE Mini/1K/4K/Ultralight
    | AuthFailed        // an authentication returned an error
    | ReadFailed        // a block read returned an error
    | ForeignCard       // the cookie is not the magic key
    | UnknownVersion    // the version is not 1
    | EmptyName         // the filename length is zero

  datatype ReadStatus = Accepted | Rejected(why: ReadError)

  /** Volume and resumable flag; the read path copies them into the
      caller's record as soon as it has seen a version-1 header. */
  datatype Metadata = NoMetadata | Metadata(volume: byte, resumable: bool)

  /** Everything a read produces: the verdict, the metadata it copied, the
      filename it assembled (used only when accepted) and the operations it
      issued. */
  datatype ReadReport = ReadReport(
    status: ReadStatus,
    metadata: Metadata,
    name: seq<byte>,
    trace: seq<Op>)

  /** The authentication before the information block is read (Classic:
      key A on the information block itself). */
  function ReadAuthOp(cfg: Config, t: PiccType): Op
  {
    if IsClassic(t) then Authenticate(cfg.infoBlockClassic) else NtagAuthenticate
  }

  /** `pagesNeeded = INFORMATION_BLOCK_SIZE / cardBlockSize` (rounded down). */
  function HeaderPages(cfg: Config, t: PiccType): nat
  {
    if IsClassic(t) then cfg.infoSize / 16 else cfg.infoSize / 4
  }

  function HeaderReadPlan(cfg: Config, t: PiccType): (ops: seq<Op>)
    ensures |ops| == HeaderPages(cfg, t)
  {
    seq(HeaderPages(cfg, t), (k: nat) => Read(PageAfter(InfoStart(cfg, t), k)))
  }

  /** Byte `i` of the information blocks from `start` on: byte
      `i % cardBlockSize` of block `i / cardBlockSize`. */
  function HeaderByte(mem: Memory, t: PiccType, start: byte, i: nat): byte
  {
    Stored(mem, t, PageAfter(start, i / BlockSize(t)))[i % BlockSize(t)]
  }

  /** Byte `j` of block `k` sits at offset `Offset(t, k) + j`. */
  lemma OffsetDivMod(t: PiccType, k: nat, j: nat)
    requires j < BlockSize(t)
    ensures (Offset(t, k) + j) / BlockSize(t) == k && (Offset(t, k) + j) % BlockSize(t) == j
  {
  }

  /** The first `cardBlockSize` bytes `MIFARE_Read` returns are those
      stored in the block read. */
  lemma ReadImageBlock(mem: Memory, t: PiccType, b: byte)
    ensures ReadImage(mem, t, b)[..BlockSize(t)] == Stored(mem, t, b)[..BlockSize(t)]
  {
    var r := ReadImage(mem, t, b);
    assert r[..BlockSize(t)] == r[..NativeSize(t)][..BlockSize(t)];
  }

  /** Information block `k` lies inside the structure. */
  lemma HeaderPageFits(cfg: Config, t: PiccType, k: nat, p: nat)
    requires k < HeaderPages(cfg, t) && p == Offset(t, k)
    ensures p + BlockSize(t) == Offset(t, k + 1) <= cfg.infoSize
  {
  }

  lemma HeaderPagesFit(cfg: Config, t: PiccType)
    ensures Offset(t, HeaderPages(cfg, t)) <= cfg.infoSize
  {
  }

  /** The structure `residue` after its first `n` bytes were overwritten
      by the bytes of the information blocks from `start` on. */
  function Overlay(mem: Memory, t: PiccType, start: byte, residue: seq<byte>, n: nat): (raw: seq<byte>)
    requires n <= |residue|
    ensures |raw| == |residue|
  {
    if n == 0 then residue
    else Overlay(mem, t, start, residue, n - 1)[n - 1 := HeaderByte(mem, t, start, n - 1)]
  }

  lemma {:induction false} OverlayAt(mem: Memory, t: PiccType, start: byte, residue: seq<byte>, n: nat, i: nat)
    requires n <= |residue| && i < |residue|
    ensures Overlay(mem, t, start, residue, n)[i] == if i < n then HeaderByte(mem, t, start, i) else residue[i]
  {
    if n > 0 {
      var prev := Overlay(mem, t, start, residue, n - 1);
      assert Overlay(mem, t, start, residue, n) == prev[n - 1 := HeaderByte(mem, t, start, n - 1)];
      if i != n - 1 {
        OverlayAt(mem, t, start, residue, n - 1, i);
      }
    }
  }

  /** `cardDataBlock.Raw` after the header loop: where a block was copied,
      the bytes of the information blocks; beyond them, whatever the
      structure held before (`residue`). */
  function HeaderRaw(cfg: Config, t: PiccType, mem: Memory, residue: seq<byte>): (raw: seq<byte>)
    requires |residue| == cfg.infoSize
    ensures |raw| == cfg.infoSize
  {
    HeaderPagesFit(cfg, t);
    Overlay(mem, t, InfoStart(cfg, t), residue, Offset(t, HeaderPages(cfg, t)))
  }

  /** Where the information-block loop stands after `k` blocks: `p` is
      the copy offset, `copied` holds the bytes copied so far, and the
      reads so far (`trace`) all succeeded. */
  ghost predicate HeaderLoopAt(cfg: Config, mem: Memory, f: Faults, t: PiccType,
                               k: nat, p: nat, copied: seq<byte>, trace: seq<Op>)
  {
    var hp := HeaderReadPlan(cfg, t);
    && k <= |hp| && p == Offset(t, k) && p <= cfg.infoSize
    && |copied| == p
    && (forall i :: 0 <= i < p ==> copied[i] == HeaderByte(mem, t, InfoStart(cfg, t), i))
    && trace == hp[..k] && AllOk(f, trace)
  }

  /** The information-block loop starts at offset 0 with the structure
      as it was and no read issued. */
  lemma HeaderLoopStart(cfg: Config, mem: Memory, f: Faults, t: PiccType)
    ensures HeaderLoopAt(cfg, mem, f, t, 0, 0, [], [])
  {
    assert HeaderReadPlan(cfg, t)[..0] == [];
  }

  /** A successful read of block `k` moves the loop on by one block. */
  lemma HeaderLoopNext(cfg: Config, mem: Memory, f: Faults, t: PiccType,
                       k: nat, p: nat, copied: seq<byte>, trace: seq<Op>, piece: seq<byte>)
    requires k < HeaderPages(cfg, t) && HeaderLoopAt(cfg, mem, f, t, k, p, copied, trace)
    requires OpOk(f, Read(PageAfter(InfoStart(cfg, t), k)))
    requires piece == ReadImage(mem, t, PageAfter(InfoStart(cfg, t), k))[..BlockSize(t)]
    ensures HeaderLoopAt(cfg, mem, f, t, k + 1, p + BlockSize(t), copied + piece,
                         trace + [Read(PageAfter(InfoStart(cfg, t), k))])
  {
    var hp := HeaderReadPlan(cfg, t);
    HeaderPageFits(cfg, t, k, p);
    ReadImageBlock(mem, t, PageAfter(InfoStart(cfg, t), k));
    CopiedExtend(mem, t, InfoStart(cfg, t), k, copied, piece);
    assert hp[..k] + [hp[k]] == hp[..k + 1];
    AllOkSnoc(f, hp, k);
  }

  /** Appending block `k` to the bytes of blocks `0 .. k - 1` gives the
      bytes of blocks `0 .. k`. */
  lemma CopiedExtend(mem: Memory, t: PiccType, start: byte, k: nat, copied: seq<byte>, piece: seq<byte>)
    requires |copied| == Offset(t, k)
    requires forall i :: 0 <= i < |copied| ==> copied[i] == HeaderByte(mem, t, start, i)
    requires piece == Stored(mem, t, PageAfter(start, k))[..BlockSize(t)]
    ensures forall i :: 0 <= i < |copied| + |piece| ==> (copied + piece)[i] == HeaderByte(mem, t, start, i)
  {
    forall i | |copied| <= i < |copied| + |piece|
      ensures (copied + piece)[i] == HeaderByte(mem, t, start, i)
    {
      OffsetDivMod(t, k, i - |copied|);
    }
  }

  /** A failed read of block `k` ends the loop, and the header read. */
  lemma HeaderLoopFail(cfg: Config, mem: Memory, f: Faults, t: PiccType,
                       k: nat, p: nat, copied: seq<byte>, trace: seq<Op>)
    requires k < HeaderPages(cfg, t) && HeaderLoopAt(cfg, mem, f, t, k, p, copied, trace)
    requires !OpOk(f, Read(PageAfter(InfoStart(cfg, t), k)))
    ensures var hp := HeaderReadPlan(cfg, t);
      !AllOk(f, hp) && Executed(f, hp) == trace + [Read(PageAfter(InfoStart(cfg, t), k))]
  {
    var hp := HeaderReadPlan(cfg, t);
    FailIndexAt(f, hp, k);
    assert hp[..k] + [hp[k]] == hp[..k + 1];
  }

  /** After every block the loop has issued the whole header read, without
      failure, and assembled the structure. */
  lemma HeaderLoopDone(cfg: Config, mem: Memory, f: Faults, t: PiccType, residue: seq<byte>,
                       k: nat, p: nat, copied: seq<byte>, trace: seq<Op>)
    requires |residue| == cfg.infoSize
    requires k == HeaderPages(cfg, t) && HeaderLoopAt(cfg, mem, f, t, k, p, copied, trace)
    ensures var hp := HeaderReadPlan(cfg, t);
      && AllOk(f, hp) && Executed(f, hp) == trace && p <= |residue|
      && copied + residue[p..] == HeaderRaw(cfg, t, mem, residue)
  {
    var hp := HeaderReadPlan(cfg, t);
    assert hp[..HeaderPages(cfg, t)] == hp;
    FailIndexAllOk(f, hp);
    forall i | 0 <= i < |residue|
      ensures (copied + residue[p..])[i] == HeaderRaw(cfg, t, mem, residue)[i]
    {
      OverlayAt(mem, t, InfoStart(cfg, t), residue, p, i);
    }
    assert copied + residue[p..] == HeaderRaw(cfg, t, mem, residue);
  }

  /** Bytes taken from each filename block: `cardBlockSize`, lowered to
      the filename length when that is shorter, and then fixed. */
  function NameChunk(len: nat, t: PiccType): nat
  {
    Min(len, BlockSize(t))
  }

  /** Blocks the filename loop reads: the loop adds the chunk to
      `position` until it reaches the length. */
  function NameReadCount(len: nat, chunk: nat): nat
    requires chunk > 0
  {
    RoundUpDiv(len, chunk)
  }

  /** Whether the read loop authenticates before iteration `k`:
      `activeKeyBlock` starts at 0 (never a key block) and then holds the
      key block of the previous iteration. */
  predicate KeyChangedAt(start: byte, k: nat)
  {
    k == 0 || KeyBlock(NameBlock(start, k, true)) != KeyBlock(NameBlock(start, k - 1, true))
  }

  /** Operations of iteration `k` of the filename loop. */
  function NameReadStep(t: PiccType, start: byte, k: nat): seq<Op>
  {
    var b := NameBlock(start, k, IsClassic(t));
    (if IsClassic(t) && KeyChangedAt(start, k) then [Authenticate(KeyBlock(b))] else [])
      + [Read(b)]
  }

  function NameReadSteps(t: PiccType, start: byte, n: nat): (steps: seq<seq<Op>>)
    ensures |steps| == n
  {
    seq(n, (k: nat) => NameReadStep(t, start, k))
  }

  /** The operations of the first `n` iterations of the filename loop. */
  function NameReadPlan(t: PiccType, start: byte, n: nat): seq<Op>
  {
    Concat(NameReadSteps(t, start, n))
  }

  /** What `strncat(pFileName, buffer, chunk)` appends in iteration `k`. */
  function NamePiece(mem: Memory, t: PiccType, start: byte, chunk: nat, k: nat): seq<byte>
    requires chunk <= FRAME
  {
    UntilNul(ReadImage(mem, t, NameBlock(start, k, IsClassic(t)))[..chunk])
  }

  /** The filename after `n` iterations. */
  function NameText(mem: Memory, t: PiccType, start: byte, chunk: nat, n: nat): seq<byte>
    requires chunk <= FRAME
  {
    if n == 0 then [] else NameText(mem, t, start, chunk, n - 1) + NamePiece(mem, t, start, chunk, n - 1)
  }

  /** The rejection reported for a failing operation. */
  function FailureOf(op: Op): ReadError
  {
    if op.Authenticate? || op.NtagAuthenticate? then AuthFailed else ReadFailed
  }

  /** `ReadCardInformation` on a reader holding a card of type `t` with
      memory `mem` and faults `f`; `residue` is what `cardDataBlock` held
      before the call. */
  function ReadCard(cfg: Config, t: PiccType, f: Faults, mem: Memory, residue: seq<byte>): (r: ReadReport)
    requires cfg.Valid() && |residue| == cfg.rawSize
    ensures r.trace == [] <==> !cfg.SizesAgree() || !Supported(t)
    ensures r.metadata.Metadata? ==>
      cfg.SizesAgree() && Supported(t) && OpOk(f, ReadAuthOp(cfg, t)) && AllOk(f, HeaderReadPlan(cfg, t))
    ensures r.status.Accepted? ==> r.metadata.Metadata?
    ensures !r.status.Accepted? ==> r.name == []
  {
    if !cfg.SizesAgree() then ReadReport(Rejected(SizeMismatch), NoMetadata, [], [])
    else if !Supported(t) then ReadReport(Rejected(UnsupportedType), NoMetadata, [], [])
    else
      var auth := ReadAuthOp(cfg, t);
      if !OpOk(f, auth) then ReadReport(Rejected(AuthFailed), NoMetadata, [], [auth])
      else
        var r := ReadHeader(cfg, t, f, mem, residue);
        r.(trace := [auth] + r.trace)
  }

  /** The read path after a successful authentication: the information
      blocks are read, the cookie and the version checked, and a version-1
      record read; the trace starts with the first block read. */
  function ReadHeader(cfg: Config, t: PiccType, f: Faults, mem: Memory, residue: seq<byte>): (r: ReadReport)
    requires cfg.Valid() && cfg.SizesAgree() && |residue| == cfg.rawSize
    ensures r.metadata.Metadata? ==>
      var h := Decode(HeaderRaw(cfg, t, mem, residue));
      && AllOk(f, HeaderReadPlan(cfg, t)) && h.cookie == cfg.magic && h.version == VERSION_1
      && r.metadata == Metadata(h.volume, h.resumable)
    ensures r.status.Accepted? ==> r.metadata.Metadata?
    ensures !r.status.Accepted? ==> r.name == []
  {
    var hp := HeaderReadPlan(cfg, t);
    if !AllOk(f, hp) then ReadReport(Rejected(ReadFailed), NoMetadata, [], Executed(f, hp))
    else
      var h := Decode(HeaderRaw(cfg, t, mem, residue));
      if h.cookie != cfg.magic then ReadReport(Rejected(ForeignCard), NoMetadata, [], hp)
      else if h.version != VERSION_1 then ReadReport(Rejected(UnknownVersion), NoMetadata, [], hp)
      else
        var r := ReadRecord(cfg, t, f, mem, h);
        r.(trace := hp + r.trace)
  }

  /** The version-1 branch of the read path for header `h`: the metadata
      is copied, then a non-empty filename is read; the trace holds only
      the filename phase's operations. */
  function ReadRecord(cfg: Config, t: PiccType, f: Faults, mem: Memory, h: Header): (r: ReadReport)
    ensures r.metadata == Metadata(h.volume, h.resumable)
    ensures r.status == Rejected(EmptyName) <==> h.fileNameLength == 0
    ensures r.status.Accepted? <==>
      var len := h.fileNameLength as nat;
      len != 0 && AllOk(f, NameReadPlan(t, NameStart(cfg, t), NameReadCount(len, NameChunk(len, t))))
    ensures !r.status.Accepted? ==> r.name == []
  {
    var meta := Metadata(h.volume, h.resumable);
    if h.fileNameLength == 0 then ReadReport(Rejected(EmptyName), meta, [], [])
    else
      var len := h.fileNameLength as nat;
      var chunk := NameChunk(len, t);
      var np := NameReadPlan(t, NameStart(cfg, t), NameReadCount(len, chunk));
      if !AllOk(f, np) then ReadReport(Rejected(FailureOf(np[FailIndex(f, np)])), meta, [], Executed(f, np))
      else ReadReport(Accepted, meta, NameText(mem, t, NameStart(cfg, t), chunk, NameReadCount(len, chunk)), np)
  }

  // ---------------------------------------------------------------------
  // Properties of the read path
  // ---------------------------------------------------------------------

  /** The blocks read by a list of operations, in order. */
  function BlocksRead(ops: seq<Op>): seq<byte>
  {
    if ops == [] then []
    else BlocksRead(ops[..|ops| - 1]) + (if ops[|ops| - 1].Read? then [ops[|ops| - 1].block] else [])
  }

  lemma {:induction false} BlocksReadAppend(a: seq<Op>, b: seq<Op>)
    ensures BlocksRead(a + b) == BlocksRead(a) + BlocksRead(b)
  {
    if b == [] {
      assert a + b == a;
    } else {
      assert (a + b)[..|a + b| - 1] == a + b[..|b| - 1];
      assert (a + b)[|a + b| - 1] == b[|b| - 1];
      BlocksReadAppend(a, b[..|b| - 1]);
    }
  }

  lemma {:induction false} BlocksReadConcat(steps: seq<seq<Op>>, bs: seq<byte>)
    requires |bs| == |steps|
    requires forall k :: 0 <= k < |steps| ==> BlocksRead(steps[k]) == [bs[k]]
    ensures BlocksRead(Concat(steps)) == bs
  {
    if steps != [] {
      var n := |steps| - 1;
      BlocksReadConcat(steps[..n], bs[..n]);
      BlocksReadAppend(Concat(steps[..n]), steps[n]);
      assert bs[..n] + [bs[n]] == bs;
    }
  }

  /** Each iteration of the filename loop reads once, at the cursor. */
  lemma NameReadStepBlock(t: PiccType, start: byte, k: nat)
    ensures BlocksRead(NameReadStep(t, start, k)) == [NameBlock(start, k, IsClassic(t))]
  {
    var step := NameReadStep(t, start, k);
    if |step| == 2 {
      assert step[..1] == [step[0]];
      assert [step[0]][..0] == [];
      assert BlocksRead(step[..1]) == [];
    } else {
      assert step[..0] == [];
    }
  }

  /** The filename loop reads the blocks of the read cursor, one per
      iteration, in order. */
  lemma NameReadPlanBlocks(t: PiccType, start: byte, n: nat)
    ensures var bs := BlocksRead(NameReadPlan(t, start, n));
      |bs| == n && forall k :: 0 <= k < n ==> bs[k] == NameBlock(start, k, IsClassic(t))
  {
    var steps := NameReadSteps(t, start, n);
    var bs := seq(n, (k: nat) => NameBlock(start, k, IsClassic(t)));
    forall k | 0 <= k < n
      ensures BlocksRead(steps[k]) == [bs[k]]
    {
      NameReadStepBlock(t, start, k);
    }
    BlocksReadConcat(steps, bs);
  }

  /** On Classic cards no filename read targets a sector trailer, given a
      filename start block that is not one. */
  lemma NameReadsAvoidTrailers(t: PiccType, start: byte, n: nat)
    requires IsClassic(t) && !IsTrailer(start as int)
    ensures forall b :: b in BlocksRead(NameReadPlan(t, start, n)) ==> !IsTrailer(b as int)
  {
    NameReadPlanBlocks(t, start, n);
    var bs := BlocksRead(NameReadPlan(t, start, n));
    forall k | 0 <= k < n
      ensures !IsTrailer(bs[k] as int)
    {
      NameBlockNotTrailer(start, k);
    }
  }

  /** On Classic cards iteration `k` authenticates exactly when `k` is the
      first iteration or its block opens a new sector, and then on the
      trailer of that block's sector; Ultralight cards never re-authenticate. */
  lemma NameReadStepAuth(t: PiccType, start: byte, k: nat)
    ensures var step := NameReadStep(t, start, k);
      var b := NameBlock(start, k, IsClassic(t));
      && step[|step| - 1] == Read(b)
      && (|step| == 2 <==> IsClassic(t) && (k == 0 || b as int % 4 == 0))
      && (|step| == 2 ==> step[0] == Authenticate(KeyBlock(b)) && b as int / 4 == KeyBlock(b) as int / 4)
  {
    if k > 0 {
      NextNameBlockChangesSector(NameBlock(start, k - 1, true));
    }
  }

  /** Block `b` can be read in the filename phase: it is readable and,
      on Classic cards, its sector accepts key A. */
  predicate NameBlockOk(t: PiccType, f: Faults, b: byte)
  {
    b !in f.unreadable && (IsClassic(t) ==> b as int / 4 !in f.lockedSectors)
  }

  /** One iteration succeeds exactly when its block can be read, given that
      the block of the previous iteration could. */
  lemma NameReadStepOk(t: PiccType, f: Faults, start: byte, k: nat)
    requires k > 0 ==> NameBlockOk(t, f, NameBlock(start, k - 1, IsClassic(t)))
    ensures AllOk(f, NameReadStep(t, start, k)) <==> NameBlockOk(t, f, NameBlock(start, k, IsClassic(t)))
  {
    var b := NameBlock(start, k, IsClassic(t));
    var step := NameReadStep(t, start, k);
    if IsClassic(t) && !KeyChangedAt(start, k) {
      var a := NameBlock(start, k - 1, true);
      assert KeyBlock(a) == KeyBlock(b);
      assert a as int / 4 == b as int / 4;
      assert step == [Read(b)];
      assert OpOk(f, step[0]) <==> b !in f.unreadable;
    } else if IsClassic(t) {
      assert step == [Authenticate(KeyBlock(b)), Read(b)];
      assert OpOk(f, step[0]) <==> b as int / 4 !in f.lockedSectors;
      assert OpOk(f, step[1]) <==> b !in f.unreadable;
    } else {
      assert step == [Read(b)];
      assert OpOk(f, step[0]) <==> b !in f.unreadable;
    }
  }

  /** The first `n` iterations succeed exactly when their blocks can be
      read. */
  lemma {:induction false} NameReadStepsOk(t: PiccType, f: Faults, start: byte, n: nat)
    ensures (forall k :: 0 <= k < n ==> AllOk(f, NameReadStep(t, start, k))) <==>
      forall k :: 0 <= k < n ==> NameBlockOk(t, f, NameBlock(start, k, IsClassic(t)))
  {
    if n > 0 {
      NameReadStepsOk(t, f, start, n - 1);
      if forall k :: 0 <= k < n - 1 ==> AllOk(f, NameReadStep(t, start, k)) {
        if n > 1 {
          NameReadStepOk(t, f, start, n - 2);
        }
        NameReadStepOk(t, f, start, n - 1);
      }
      if forall k :: 0 <= k < n - 1 ==> NameBlockOk(t, f, NameBlock(start, k, IsClassic(t))) {
        NameReadStepOk(t, f, start, n - 1);
      }
    }
  }

  /** The filename phase fails exactly when one of its blocks is
      unreadable or, on Classic cards, lies in a sector that refuses key A:
      authenticating only when the key block changes loses nothing. */
  lemma NameReadPlanOk(t: PiccType, f: Faults, start: byte, n: nat)
    ensures AllOk(f, NameReadPlan(t, start, n)) <==>
      forall k :: 0 <= k < n ==> NameBlockOk(t, f, NameBlock(start, k, IsClassic(t)))
  {
    var steps := NameReadSteps(t, start, n);
    AllOkConcat(f, steps);
    NameReadStepsOk(t, f, start, n);
    assert forall k :: 0 <= k < n ==> steps[k] == NameReadStep(t, start, k);
  }

  /** The operations one iteration of the filename loop issues, decided
      from its cursor `block` and `activeKeyBlock`: key-A authentication
      of the block's trailer when that is not the active key block
      (Classic only), then the read. */
  function NameStepOps(t: PiccType, block: byte, activeKeyBlock: byte): seq<Op>
  {
    NameAuthOps(t, block, activeKeyBlock) + [Read(block)]
  }

  /** The authentication part of `NameStepOps`. */
  function NameAuthOps(t: PiccType, block: byte, activeKeyBlock: byte): seq<Op>
  {
    if IsClassic(t) && KeyBlock(block) != activeKeyBlock then [Authenticate(KeyBlock(block))] else []
  }

  /** An iteration stops after a failed authentication; otherwise it
      succeeds exactly when its read does. */
  lemma NameStepOpsRun(f: Faults, t: PiccType, block: byte, activeKeyBlock: byte)
    ensures var auth := NameAuthOps(t, block, activeKeyBlock);
      var ops := NameStepOps(t, block, activeKeyBlock);
      && (!AllOk(f, auth) ==> !AllOk(f, ops) && Executed(f, ops) == auth)
      && (AllOk(f, auth) ==> (AllOk(f, ops) <==> OpOk(f, Read(block))) && Executed(f, ops) == ops)
  {
    var auth := NameAuthOps(t, block, activeKeyBlock);
    var ops := NameStepOps(t, block, activeKeyBlock);
    if !AllOk(f, auth) {
      FailIndexAt(f, ops, 0);
    } else if OpOk(f, Read(block)) {
      FailIndexAllOk(f, ops);
    } else {
      assert ops[..|auth|] == auth;
      FailIndexAt(f, ops, |auth|);
    }
  }

  /** Where the filename loop stands after `k` of its `n` iterations: the
      cursor is on the `k`-th filename block, `activeKeyBlock` holds the
      key block of the previous iteration (0 before the first), the
      operations so far (`trace`) all succeeded and `name` holds what they
      appended. */
  ghost predicate NameLoopAt(mem: Memory, f: Faults, t: PiccType, start: byte, chunk: nat, n: nat,
                             k: nat, block: byte, activeKeyBlock: byte, name: seq<byte>, trace: seq<Op>)
  {
    && k <= n && chunk <= FRAME
    && block == NameBlock(start, k, IsClassic(t))
    && (k == 0 ==> activeKeyBlock == 0)
    && (IsClassic(t) && k > 0 ==> activeKeyBlock == KeyBlock(NameBlock(start, k - 1, true)))
    && trace == Concat(NameReadSteps(t, start, n)[..k]) && AllOk(f, trace)
    && name == NameText(mem, t, start, chunk, k)
  }

  /** The filename loop starts on the first filename block, with no key
      block active, no operation issued and an empty name. */
  lemma NameLoopStart(mem: Memory, f: Faults, t: PiccType, start: byte, chunk: nat, n: nat)
    requires chunk <= FRAME
    ensures NameLoopAt(mem, f, t, start, chunk, n, 0, start, 0, [], [])
  {
    assert NameReadSteps(t, start, n)[..0] == [];
  }

  /** Deciding authentication from `activeKeyBlock` issues exactly the
      operations of iteration `k`. */
  lemma NameStepOpsAt(mem: Memory, f: Faults, t: PiccType, start: byte, chunk: nat, n: nat,
                      k: nat, block: byte, activeKeyBlock: byte, name: seq<byte>, trace: seq<Op>)
    requires k < n && NameLoopAt(mem, f, t, start, chunk, n, k, block, activeKeyBlock, name, trace)
    ensures NameReadSteps(t, start, n)[k] == NameStepOps(t, block, activeKeyBlock)
  {
    assert NameReadSteps(t, start, n)[k] == NameReadStep(t, start, k);
    if IsClassic(t) && k > 0 {
      assert KeyChangedAt(start, k) <==> KeyBlock(block) != activeKeyBlock;
    }
  }

  /** A successful iteration moves the loop on to iteration `k + 1`. */
  lemma NameLoopNext(mem: Memory, f: Faults, t: PiccType, start: byte, chunk: nat, n: nat,
                     k: nat, block: byte, activeKeyBlock: byte, name: seq<byte>, trace: seq<Op>,
                     block': byte, activeKeyBlock': byte, name': seq<byte>)
    requires k < n && NameLoopAt(mem, f, t, start, chunk, n, k, block, activeKeyBlock, name, trace)
    requires AllOk(f, NameStepOps(t, block, activeKeyBlock))
    requires block' == NextNameBlock(block, IsClassic(t))
    requires activeKeyBlock' == if IsClassic(t) then KeyBlock(block) else activeKeyBlock
    requires name' == name + UntilNul(ReadImage(mem, t, block)[..chunk])
    ensures NameLoopAt(mem, f, t, start, chunk, n, k + 1, block', activeKeyBlock', name',
                       trace + NameStepOps(t, block, activeKeyBlock))
  {
    var steps := NameReadSteps(t, start, n);
    NameStepOpsAt(mem, f, t, start, chunk, n, k, block, activeKeyBlock, name, trace);
    ConcatSnoc(steps, k);
    AllOkAppend(f, trace, steps[k]);
  }

  /** A failing iteration ends the filename phase: it fails, and the
      operations issued are those so far and this iteration's up to the
      one that failed. */
  lemma NameLoopFail(mem: Memory, f: Faults, t: PiccType, start: byte, chunk: nat, n: nat,
                     k: nat, block: byte, activeKeyBlock: byte, name: seq<byte>, trace: seq<Op>)
    requires k < n && NameLoopAt(mem, f, t, start, chunk, n, k, block, activeKeyBlock, name, trace)
    requires !AllOk(f, NameStepOps(t, block, activeKeyBlock))
    ensures var np := NameReadPlan(t, start, n);
      !AllOk(f, np) && Executed(f, np) == trace + Executed(f, NameStepOps(t, block, activeKeyBlock))
  {
    var steps := NameReadSteps(t, start, n);
    var ops := NameStepOps(t, block, activeKeyBlock);
    NameStepOpsAt(mem, f, t, start, chunk, n, k, block, activeKeyBlock, name, trace);
    var j := FailIndex(f, ops);
    FailIndexAt(f, ops, j);
    ExecutedConcat(f, steps, k, j);
  }

  /** After all `n` iterations the loop has issued the whole filename
      phase, without failure, and assembled its text. */
  lemma NameLoopDone(mem: Memory, f: Faults, t: PiccType, start: byte, chunk: nat, n: nat, k: nat,
                     block: byte, activeKeyBlock: byte, name: seq<byte>, trace: seq<Op>)
    requires k == n && NameLoopAt(mem, f, t, start, chunk, n, k, block, activeKeyBlock, name, trace)
    ensures var np := NameReadPlan(t, start, n);
      && AllOk(f, np) && Executed(f, np) == trace && name == NameText(mem, t, start, chunk, n)
  {
    var steps := NameReadSteps(t, start, n);
    assert steps[..n] == steps;
    FailIndexAllOk(f, trace);
  }

  /** Each iteration appends at most `chunk` bytes, so the filename holds
      at most `n * chunk` bytes; it holds exactly that many when no chunk
      contains a NUL. */
  lemma NameTextLength(mem: Memory, t: PiccType, start: byte, chunk: nat, n: nat)
    requires chunk <= FRAME
    ensures |NameText(mem, t, start, chunk, n)| <= n * chunk
    ensures (forall k :: 0 <= k < n ==>
               NoNul(ReadImage(mem, t, NameBlock(start, k, IsClassic(t)))[..chunk]))
            ==> |NameText(mem, t, start, chunk, n)| == n * chunk
  {
    NameTextChunks(mem, t, start, chunk, n);
    ChunkPositionIsProduct(n, chunk);
  }

  /** `NameTextLength`, counted by repeated addition of the chunk. */
  lemma {:induction false} NameTextChunks(mem: Memory, t: PiccType, start: byte, chunk: nat, n: nat)
    requires chunk <= FRAME
    ensures |NameText(mem, t, start, chunk, n)| <= ChunkPosition(n, chunk)
    ensures (forall k :: 0 <= k < n ==>
               NoNul(ReadImage(mem, t, NameBlock(start, k, IsClassic(t)))[..chunk]))
            ==> |NameText(mem, t, start, chunk, n)| == ChunkPosition(n, chunk)
  {
    if n > 0 {
      NameTextChunks(mem, t, start, chunk, n - 1);
      var s := ReadImage(mem, t, NameBlock(start, n - 1, IsClassic(t)))[..chunk];
      assert NameText(mem, t, start, chunk, n) == NameText(mem, t, start, chunk, n - 1) + UntilNul(s);
      if NoNul(s) {
        UntilNulOfNoNul(s);
      }
    }
  }

  /** A Classic card whose filename blocks hold no NUL, with a filename
      length of 20, is accepted with a 32-byte name: the fixed 16-byte
      chunk copies past the length. The source stores that name in a buffer
      of FileNameLength + 1 = 21 bytes. */
  lemma ReadNameOverrun(cfg: Config, t: PiccType, mem: Memory)
    requires IsClassic(t)
    requires forall k :: 0 <= k < 2 ==>
      NoNul(ReadImage(mem, t, NameBlock(NameStart(cfg, t), k, true)))
    ensures NameReadCount(20, NameChunk(20, t)) == 2
    ensures |NameText(mem, t, NameStart(cfg, t), NameChunk(20, t), 2)| == 32
  {
    forall k | 0 <= k < 2
      ensures NoNul(ReadImage(mem, t, NameBlock(NameStart(cfg, t), k, true))[..16])
    {
      var s := ReadImage(mem, t, NameBlock(NameStart(cfg, t), k, true));
      assert forall i :: 0 <= i < 16 ==> s[..16][i] == s[i];
    }
    NameTextLength(mem, t, NameStart(cfg, t), 16, 2);
  }

  /** Bytes of iteration `k` the read loop evidently means to copy: the
      chunk, clipped to what is still missing from the filename. */
  function ClippedCount(len: nat, chunk: nat, k: nat): nat
  {
    var p := ChunkPosition(k, chunk);
    if p >= len then 0 else Min(chunk, len - p)
  }

  /** What the clipped copy appends in iteration `k`, from the block
      image `s` it read. */
  function ClippedPiece(s: seq<byte>, len: nat, chunk: nat, k: nat): seq<byte>
    requires chunk <= |s|
  {
    UntilNul(s[..ClippedCount(len, chunk, k)])
  }

  /** The filename the clipped copy assembles from the block images it
      read, in the order the read loop visits them. */
  function ClippedText(images: seq<seq<byte>>, len: nat, chunk: nat): seq<byte>
    requires forall k :: 0 <= k < |images| ==> chunk <= |images[k]|
  {
    if images == [] then []
    else
      var m := |images| - 1;
      ClippedText(images[..m], len, chunk) + ClippedPiece(images[m], len, chunk, m)
  }

  /** The block images the read loop's first `n` iterations read. */
  function NameImages(mem: Memory, t: PiccType, start: byte, n: nat): seq<seq<byte>>
  {
    seq(n, (k: nat) => ReadImage(mem, t, NameBlock(start, k, IsClassic(t))))
  }

  /** The clipped copy never holds more than the filename length, and
      holds the bytes up to it when the blocks carry no NUL. */
  lemma {:induction false} ClippedTextLength(images: seq<seq<byte>>, len: nat, chunk: nat)
    requires forall k :: 0 <= k < |images| ==> chunk <= |images[k]|
    ensures |ClippedText(images, len, chunk)| <= Min(len, ChunkPosition(|images|, chunk))
    ensures (forall k :: 0 <= k < |images| ==> NoNul(images[k][..chunk]))
            ==> |ClippedText(images, len, chunk)| == Min(len, ChunkPosition(|images|, chunk))
  {
    if images != [] {
      var m := |images| - 1;
      var prev := ClippedText(images[..m], len, chunk);
      var piece := ClippedPiece(images[m], len, chunk, m);
      ClippedTextLength(images[..m], len, chunk);
      ClippedPieceLength(images[m], len, chunk, m);
      assert |ClippedText(images, len, chunk)| == |prev| + |piece|;
      ClippedStep(|prev|, |piece|, len, chunk, m);
      if forall k :: 0 <= k < |images| ==> NoNul(images[k][..chunk]) {
        assert forall k :: 0 <= k < m ==> images[..m][k] == images[k];
        assert |prev| == Min(len, ChunkPosition(m, chunk));
        assert |piece| == ClippedCount(len, chunk, m);
      }
    }
  }

  /** Iteration `k` appends at most `ClippedCount` bytes, and exactly that
      many when its block carries no NUL in the chunk. */
  lemma ClippedPieceLength(s: seq<byte>, len: nat, chunk: nat, k: nat)
    requires chunk <= |s|
    ensures |ClippedPiece(s, len, chunk, k)| <= ClippedCount(len, chunk, k)
    ensures NoNul(s[..chunk]) ==> |ClippedPiece(s, len, chunk, k)| == ClippedCount(len, chunk, k)
  {
    var m := ClippedCount(len, chunk, k);
    if NoNul(s[..chunk]) {
      assert NoNul(s[..m]) by {
        assert forall i :: 0 <= i < m ==> s[..m][i] == s[..chunk][i];
      }
      UntilNulOfNoNul(s[..m]);
    }
  }

  /** The length bound of `ClippedTextLength`, one iteration on. */
  lemma ClippedStep(a: nat, c: nat, len: nat, chunk: nat, k: nat)
    requires a <= Min(len, ChunkPosition(k, chunk)) && c <= ClippedCount(len, chunk, k)
    ensures a + c <= Min(len, ChunkPosition(k + 1, chunk))
    ensures a == Min(len, ChunkPosition(k, chunk)) && c == ClippedCount(len, chunk, k)
            ==> a + c == Min(len, ChunkPosition(k + 1, chunk))
  {
  }

  /** Over the iterations the loop runs, the clipped copy fits the buffer
      of `len + 1` bytes, and a filename without NUL bytes comes back with
      exactly `len` bytes. */
  lemma ClippedNameFits(mem: Memory, t: PiccType, start: byte, len: nat)
    requires 0 < len
    ensures var chunk := NameChunk(len, t);
      var n := NameReadCount(len, chunk);
      var text := ClippedText(NameImages(mem, t, start, n), len, chunk);
      && |text| <= len
      && ((forall k :: 0 <= k < n ==> NoNul(ReadImage(mem, t, NameBlock(start, k, IsClassic(t)))[..chunk]))
          ==> |text| == len)
  {
    var chunk := NameChunk(len, t);
    var n := NameReadCount(len, chunk);
    ClippedTextLength(NameImages(mem, t, start, n), len, chunk);
    ChunksBeforeEnd(len, chunk, n);
  }

  /** A header with the right cookie but another version is rejected
      before any filename block is touched. */
  lemma WrongVersionSkipsName(cfg: Config, t: PiccType, f: Faults, mem: Memory, residue: seq<byte>)
    requires cfg.Valid() && cfg.SizesAgree() && Supported(t) && |residue| == cfg.rawSize
    requires OpOk(f, ReadAuthOp(cfg, t)) && AllOk(f, HeaderReadPlan(cfg, t))
    requires var h := Decode(HeaderRaw(cfg, t, mem, residue)); h.cookie == cfg.magic && h.version != VERSION_1
    ensures var r := ReadCard(cfg, t, f, mem, residue);
      r.status == Rejected(UnknownVersion) && r.metadata == NoMetadata
      && BlocksRead(r.trace) == BlocksRead(HeaderReadPlan(cfg, t))
  {
    var auth := ReadAuthOp(cfg, t);
    BlocksReadAppend([auth], HeaderReadPlan(cfg, t));
    assert BlocksRead([auth]) == [] by {
      assert [auth][..0] == [];
    }
  }

  // =====================================================================
  // Write path
  // =====================================================================

  /** The authentication before the information block is written (Classic:
      key A on `operatingSector * 4 + 3`, the trailer of the information
      block's sector). */
  function WriteAuthOp(cfg: Config, t: PiccType): Op
  {
    if IsClassic(t) then Authenticate(KeyBlock(cfg.infoBlockClassic)) else NtagAuthenticate
  }

  /** The write cursor on the first block of a region: Classic cards split
      the block number into sector and block, Ultralight cards start in
      sector 0. */
  function StartCursor(start: byte, t: PiccType): Cursor
  {
    if IsClassic(t) then Cursor(start / 4, start % 4) else Cursor(0, start)
  }

  /** `neededBlocks` of the information block. */
  function HeaderBlocks(cfg: Config, t: PiccType): nat
  {
    RoundUpDiv(cfg.infoSize, BlockSize(t))
  }

  /** `neededBlocks` of a filename of `len` bytes: room for the bytes and
      a terminating NUL. */
  function NameBlocks(len: nat, t: PiccType): nat
  {
    RoundUpDiv(len + 1, BlockSize(t))
  }

  /** What the header loop copies from: the header fields, then `junk`,
      the bytes of the uninitialised structure after them and whatever
      lies beyond it in memory (the last `memcpy` may copy past the end when
      INFORMATION_BLOCK_SIZE is not a multiple of the block size). */
  function HeaderSource(h: Header, junk: seq<byte>): (src: seq<byte>)
    ensures |src| == HEADER_BYTES + |junk|
    ensures src[..HEADER_BYTES] == Encode(h)
  {
    Encode(h) + junk
  }

  /** `buffer` after `memcpy(pBuffer, pDataSource, blockSize)` into a
      zeroed buffer: block `k` of the source, then zeros. */
  function HeaderFrame(src: seq<byte>, t: PiccType, k: nat): (frame: seq<byte>)
    ensures |frame| == FRAME
    ensures frame[BlockSize(t)..] == Zeros(FRAME - BlockSize(t))
    ensures Offset(t, k + 1) <= |src| ==> frame[..BlockSize(t)] == src[Offset(t, k)..Offset(t, k + 1)]
  {
    PaddedTail(Window(src, Offset(t, k), BlockSize(t)), BlockSize(t));
    PadTo(Window(src, Offset(t, k), BlockSize(t)), FRAME)
  }

  /** The write of iteration `k` of the information-block loop: block
      `k` of the source, at the cursor after `k` advances. */
  function HeaderWrite(cfg: Config, t: PiccType, src: seq<byte>, k: nat): Op
  {
    Write(Address(CursorAt(StartCursor(InfoStart(cfg, t), t), IsClassic(t), k), IsClassic(t)),
          HeaderFrame(src, t, k))
  }

  /** `[g(0), ..., g(n - 1)]`. */
  function Tabulate<T>(n: nat, g: nat -> T): (s: seq<T>)
    ensures |s| == n
  {
    if n == 0 then [] else Tabulate(n - 1, g) + [g(n - 1)]
  }

  lemma {:induction false} TabulateAt<T>(n: nat, g: nat -> T, k: nat)
    requires k < n
    ensures Tabulate(n, g)[k] == g(k)
  {
    if k < n - 1 {
      TabulateAt(n - 1, g, k);
    }
  }

  /** The writes of the first `k` iterations of the information-block
      loop. */
  function HeaderWrites(cfg: Config, t: PiccType, src: seq<byte>, k: nat): (ops: seq<Op>)
    ensures |ops| == k
  {
    Tabulate(k, (i: nat) => HeaderWrite(cfg, t, src, i))
  }

  lemma HeaderWritesAt(cfg: Config, t: PiccType, src: seq<byte>, k: nat, i: nat)
    requires i < k
    ensures HeaderWrites(cfg, t, src, k)[i] == HeaderWrite(cfg, t, src, i)
  {
    TabulateAt(k, (i: nat) => HeaderWrite(cfg, t, src, i), i);
  }

  /** All the writes of the information-block loop. */
  function HeaderWritePlan(cfg: Config, t: PiccType, src: seq<byte>): (ops: seq<Op>)
    ensures |ops| == HeaderBlocks(cfg, t)
  {
    HeaderWrites(cfg, t, src, HeaderBlocks(cfg, t))
  }

  /** `buffer` after `getBytes(pBuffer, blockSize + 1, k * blockSize)` into
      a zeroed buffer: up to `blockSize` bytes of the name from that
      position, stopping at a NUL, then zeros. */
  function NameFrame(name: seq<byte>, t: PiccType, k: nat): (frame: seq<byte>)
    ensures |frame| == FRAME
    ensures frame[BlockSize(t)..] == Zeros(FRAME - BlockSize(t))
  {
    var w := Window(name, Offset(t, k), BlockSize(t));
    PaddedTail(UntilNul(w), BlockSize(t));
    PadTo(UntilNul(Window(name, Offset(t, k), BlockSize(t))), FRAME)
  }

  /** The sector `actualAuthentificatedSector` holds before iteration `k`
      of the filename loop (when every authentication so far succeeded). */
  function SectorBefore(c0: Cursor, classic: bool, k: nat): int
  {
    if k == 0 then 0 else CursorAt(c0, classic, k - 1).sector as int
  }

  /** One iteration of the filename loop with the cursor at `c`,
      `actualAuthentificatedSector` equal to `held` and `frame` in the
      buffer: on Classic cards an authentication on the trailer of the
      cursor's sector when that is not the sector held, then the write. */
  function NameWriteOps(t: PiccType, c: Cursor, held: int, frame: seq<byte>): seq<Op>
  {
    NameWriteAuth(t, c, held) + [Write(Address(c, IsClassic(t)), frame)]
  }

  /** The authentication part of `NameWriteOps`: key A on
      `operatingSector * 4 + 3` (an 8-bit block address). */
  function NameWriteAuth(t: PiccType, c: Cursor, held: int): seq<Op>
  {
    if IsClassic(t) && c.sector as int != held
    then [Authenticate(((c.sector as int * 4 + 3) % 256) as byte)] else []
  }

  /** Operations of iteration `k` of the filename loop started at `c0`. */
  function NameWriteStep(t: PiccType, c0: Cursor, name: seq<byte>, k: nat): seq<Op>
  {
    NameWriteOps(t, CursorAt(c0, IsClassic(t), k), SectorBefore(c0, IsClassic(t), k),
                 NameFrame(name, t, k))
  }

  /** The operations of the first `n` iterations of the filename loop,
      iteration by iteration. */
  function NameWriteSteps(t: PiccType, c0: Cursor, name: seq<byte>, n: nat): (steps: seq<seq<Op>>)
    ensures |steps| == n
  {
    Tabulate(n, (k: nat) => NameWriteStep(t, c0, name, k))
  }

  lemma NameWriteStepsAt(t: PiccType, c0: Cursor, name: seq<byte>, n: nat, k: nat)
    requires k < n
    ensures NameWriteSteps(t, c0, name, n)[k] == NameWriteStep(t, c0, name, k)
  {
    TabulateAt(n, (k: nat) => NameWriteStep(t, c0, name, k), k);
  }

  /** The operations of the first `n` iterations of the filename loop. */
  function NameWritePlan(t: PiccType, c0: Cursor, name: seq<byte>, n: nat): seq<Op>
  {
    Concat(NameWriteSteps(t, c0, name, n))
  }

  /** Everything `WriteCardInformation` issues after the presence check and
      the type check: the authentication, the information blocks, the
      filename blocks. It stops at the first operation that fails. */
  function WritePlan(cfg: Config, t: PiccType, volume: byte, resumable: bool,
                     name: seq<byte>, junk: seq<byte>): (plan: seq<Op>)
    ensures plan != [] && plan[0] == WriteAuthOp(cfg, t)
    ensures |WritesOf(plan)| == HeaderBlocks(cfg, t) + NameBlocks(|name|, t)
  {
    var h := WrittenHeader(cfg, volume, resumable, |name|);
    PlanWriteCount(cfg, t, HeaderSource(h, junk), StartCursor(NameStart(cfg, t), t), name, NameBlocks(|name|, t));
    [WriteAuthOp(cfg, t)]
      + HeaderWritePlan(cfg, t, HeaderSource(h, junk))
      + NameWritePlan(t, StartCursor(NameStart(cfg, t), t), name, NameBlocks(|name|, t))
  }

  /** What `WriteCardInformation` does after its size checks passed and
      its presence check answered `present`: whether it succeeds, the
      operations it issues before the final halt, and the writes that took
      effect. */
  datatype WriteReport = WriteReport(ok: bool, trace: seq<Op>, written: seq<Op>)

  function WriteCard(cfg: Config, t: PiccType, f: Faults, present: bool, volume: byte,
                     resumable: bool, name: seq<byte>, junk: seq<byte>): (w: WriteReport)
    ensures !present || !Supported(t) ==> w == WriteReport(false, [], [])
    ensures w.written <= w.trace
    ensures w.ok ==> w.trace == w.written == WritePlan(cfg, t, volume, resumable, name, junk)
  {
    if !present || NameTooLong(WrittenHeader(cfg, volume, resumable, |name|)) || !Supported(t) then
      WriteReport(false, [], [])
    else
      var plan := WritePlan(cfg, t, volume, resumable, name, junk);
      ExecutedOutcome(f, plan);
      WriteReport(AllOk(f, plan), Executed(f, plan), Completed(f, plan))
  }

  // ---------------------------------------------------------------------
  // Properties of the write path
  // ---------------------------------------------------------------------

  /** Every iteration of the filename loop writes exactly one block. */
  lemma NameWritePlanCount(t: PiccType, c0: Cursor, name: seq<byte>, n: nat)
    ensures |WritesOf(NameWritePlan(t, c0, name, n))| == n
  {
    var steps := NameWriteSteps(t, c0, name, n);
    var ws := seq(n, (k: nat) => Write(Address(CursorAt(c0, IsClassic(t), k), IsClassic(t)), NameFrame(name, t, k)));
    forall k | 0 <= k < n
      ensures WritesOf(steps[k]) == [ws[k]]
    {
      NameWriteStepsAt(t, c0, name, n, k);
      NameWriteOpsWrites(t, CursorAt(c0, IsClassic(t), k), SectorBefore(c0, IsClassic(t), k), NameFrame(name, t, k));
    }
    WritesOfConcat(steps, ws);
  }

  /** The write path authenticates first and then writes one block per
      block of the information block and one per filename block. */
  lemma PlanWriteCount(cfg: Config, t: PiccType, src: seq<byte>, c0: Cursor, name: seq<byte>, n: nat)
    ensures |WritesOf([WriteAuthOp(cfg, t)] + HeaderWritePlan(cfg, t, src) + NameWritePlan(t, c0, name, n))|
         == HeaderBlocks(cfg, t) + n
  {
    var a := WriteAuthOp(cfg, t);
    var hw := HeaderWritePlan(cfg, t, src);
    var nw := NameWritePlan(t, c0, name, n);
    forall i | 0 <= i < |hw|
      ensures hw[i].Write?
    {
      HeaderWritesAt(cfg, t, src, HeaderBlocks(cfg, t), i);
    }
    WritesOfWrites(hw);
    NameWritePlanCount(t, c0, name, n);
    WritesOfAppend([a] + hw, nw);
    WritesOfAppend([a], hw);
    assert WritesOf([a]) == [] by {
      assert [a][..0] == [];
    }
  }

  /** The cursor starts on the region's first block, inside its sector. */
  lemma StartCursorAddress(start: byte, t: PiccType)
    requires IsClassic(t) || start as int < ULTRALIGHT_SECTOR_SIZE
    ensures StartCursor(start, t).block as nat < SectorSize(IsClassic(t))
    ensures Address(StartCursor(start, t), IsClassic(t)) == start
  {
  }

  /** The information block is written to consecutive block numbers from
      its first block, and block `k` carries bytes `k * blockSize ..` of the
      source. */
  lemma HeaderWritePlanWrites(cfg: Config, t: PiccType, src: seq<byte>)
    requires IsClassic(t) || InfoStart(cfg, t) as int < ULTRALIGHT_SECTOR_SIZE
    ensures var ops := HeaderWritePlan(cfg, t, src);
      && WritesOf(ops) == ops
      && forall k :: 0 <= k < |ops| ==>
           ops[k] == Write(PageAfter(InfoStart(cfg, t), k), HeaderFrame(src, t, k))
  {
    var ops := HeaderWritePlan(cfg, t, src);
    var c0 := StartCursor(InfoStart(cfg, t), t);
    StartCursorAddress(InfoStart(cfg, t), t);
    forall k | 0 <= k < |ops|
      ensures ops[k] == Write(PageAfter(InfoStart(cfg, t), k), HeaderFrame(src, t, k))
    {
      HeaderWritesAt(cfg, t, src, |ops|, k);
      CursorAtAddress(c0, IsClassic(t), k);
    }
    WritesOfWrites(ops);
  }

  /** The information blocks written cover INFORMATION_BLOCK_SIZE and no
      block more. */
  lemma HeaderBlocksCover(cfg: Config, t: PiccType)
    ensures cfg.infoSize <= HeaderBlocks(cfg, t) * BlockSize(t) < cfg.infoSize + BlockSize(t)
  {
    RoundUpDivBounds(cfg.infoSize, BlockSize(t));
  }

  /** The write cursor's block number, as a step from its first block. */
  lemma CursorAtPageAfter(c0: Cursor, classic: bool, k: nat)
    requires c0.block as nat < SectorSize(classic)
    ensures Address(CursorAt(c0, classic, k), classic) == PageAfter(Address(c0, classic), k)
  {
    CursorAtAddress(c0, classic, k);
  }

  /** Each iteration of the filename loop writes once, at the cursor. */
  lemma NameWriteOpsWrites(t: PiccType, c: Cursor, held: int, frame: seq<byte>)
    ensures WritesOf(NameWriteOps(t, c, held, frame)) == [Write(Address(c, IsClassic(t)), frame)]
  {
    var step := NameWriteOps(t, c, held, frame);
    if |step| == 2 {
      assert step[..1] == [step[0]];
      assert [step[0]][..0] == [];
      assert WritesOf(step[..1]) == [];
    } else {
      assert step[..0] == [];
    }
  }

  /** The write of iteration `k` of the filename loop started at `c0`:
      block `k` after the first one, carrying chunk `k` of the name. */
  function NameWriteOp(t: PiccType, c0: Cursor, name: seq<byte>, k: nat): Op
  {
    Write(PageAfter(Address(c0, IsClassic(t)), k), NameFrame(name, t, k))
  }

  /** Iteration `k` writes block `k` after the filename's first block. */
  lemma NameWriteStepBlock(t: PiccType, c0: Cursor, name: seq<byte>, k: nat)
    requires c0.block as nat < SectorSize(IsClassic(t))
    ensures WritesOf(NameWriteStep(t, c0, name, k)) == [NameWriteOp(t, c0, name, k)]
  {
    NameWriteOpsWrites(t, CursorAt(c0, IsClassic(t), k), SectorBefore(c0, IsClassic(t), k),
                       NameFrame(name, t, k));
    CursorAtPageAfter(c0, IsClassic(t), k);
  }

  /** The filename loop writes `n` consecutive block numbers from the
      filename's first block, block `k` carrying chunk `k` of the name. */
  lemma NameWritePlanWrites(t: PiccType, c0: Cursor, name: seq<byte>, n: nat)
    requires c0.block as nat < SectorSize(IsClassic(t))
    ensures var w := WritesOf(NameWritePlan(t, c0, name, n));
      |w| == n && forall k :: 0 <= k < n ==> w[k] == NameWriteOp(t, c0, name, k)
  {
    var steps := NameWriteSteps(t, c0, name, n);
    var ws := seq(n, (k: nat) => NameWriteOp(t, c0, name, k));
    forall k | 0 <= k < n
      ensures WritesOf(steps[k]) == [ws[k]]
    {
      NameWriteStepsAt(t, c0, name, n, k);
      NameWriteStepBlock(t, c0, name, k);
    }
    WritesOfConcat(steps, ws);
  }

  /** The chunk of a NUL-free name written in iteration `k` is the name's
      bytes `k * blockSize .. k * blockSize + blockSize - 1` (fewer at the
      end of the name), zero-padded. */
  lemma NameFrameContents(name: seq<byte>, t: PiccType, k: nat)
    requires NoNul(name)
    ensures NameFrame(name, t, k) == PadTo(Window(name, k * BlockSize(t), BlockSize(t)), FRAME)
  {
    OffsetIsProduct(t, k);
    var w := Window(name, Offset(t, k), BlockSize(t));
    assert NoNul(w);
    UntilNulOfNoNul(w);
  }

  /** The C string a frame holds is the name's bytes from the frame's
      position, up to the first NUL or `cardBlockSize` bytes. */
  lemma NameFrameString(name: seq<byte>, t: PiccType, k: nat)
    ensures UntilNul(NameFrame(name, t, k)) == UntilNul(Window(name, Offset(t, k), BlockSize(t)))
  {
    var w := Window(name, Offset(t, k), BlockSize(t));
    UntilNulIdempotent(w);
    UntilNulOfPadded(UntilNul(w), FRAME);
  }

  /** The last filename block always has room for the terminating NUL:
      the blocks cover the name plus one byte. */
  lemma NameBlocksCoverTerminator(len: nat, t: PiccType)
    ensures len + 1 <= NameBlocks(len, t) * BlockSize(t) < len + 1 + BlockSize(t)
  {
    RoundUpDivBounds(len + 1, BlockSize(t));
  }

  /** The key block the filename loop authenticates for a sector is the
      trailer of the block it writes. */
  lemma KeyBlockOfCursor(c: Cursor)
    requires c.block < 4
    ensures KeyBlock(Address(c, true)) == ((c.sector as int * 4 + 3) % 256) as byte
  {
    var s, b := c.sector as int, c.block as int;
    var q, r := s / 64, s % 64;
    DigitSplit(s * 4 + b, 4 * r + b, q);
    DigitSplit(s * 4 + 3, 4 * r + 3, q);
    assert (4 * r + b) / 4 == r;
  }

  /** Whether iteration `k` on a Classic card sees a new sector: for
      `k > 0` when its block is 0 of a sector, for `k == 0` when the
      filename does not start in sector 0. */
  lemma SectorChangeAt(c0: Cursor, k: nat)
    requires c0.block < 4
    ensures CursorAt(c0, true, k).block < 4
    ensures (CursorAt(c0, true, k).sector as int != SectorBefore(c0, true, k))
        <==> (if k == 0 then c0.sector != 0 else (c0.block as int + k) % 4 == 0)
  {
    CursorAtBlock(c0, true, k);
    if k > 0 {
      CursorAtBlock(c0, true, k - 1);
    }
  }

  /** On Classic cards iteration `k` authenticates exactly when the cursor
      has entered a new sector (see `SectorChangeAt`; the quirk for
      `k == 0` comes from `actualAuthentificatedSector` starting at 0), and
      the key used is the trailer of the sector written next. Ultralight
      cards never authenticate here. */
  lemma NameWriteStepAuth(t: PiccType, c0: Cursor, name: seq<byte>, k: nat)
    requires c0.block as nat < SectorSize(IsClassic(t))
    ensures var step := NameWriteStep(t, c0, name, k);
      var a := Address(CursorAt(c0, IsClassic(t), k), IsClassic(t));
      && step[|step| - 1] == Write(a, NameFrame(name, t, k))
      && (|step| == 2 <==>
           IsClassic(t) && (if k == 0 then c0.sector != 0 else (c0.block as int + k) % 4 == 0))
      && (|step| == 2 ==> step[0] == Authenticate(KeyBlock(a)))
  {
    var classic := IsClassic(t);
    var c := CursorAt(c0, classic, k);
    NameWriteOpsShape(t, c, SectorBefore(c0, classic, k), NameFrame(name, t, k));
    if classic {
      SectorChangeAt(c0, k);
      KeyBlockOfCursor(c);
    }
  }

  /** The shape of one filename-loop iteration for a given cursor and
      held sector. */
  lemma NameWriteOpsShape(t: PiccType, c: Cursor, held: int, frame: seq<byte>)
    ensures var ops := NameWriteOps(t, c, held, frame);
      && ops[|ops| - 1] == Write(Address(c, IsClassic(t)), frame)
      && (|ops| == 2 <==> IsClassic(t) && c.sector as int != held)
      && (|ops| == 2 ==> ops[0] == Authenticate(((c.sector as int * 4 + 3) % 256) as byte))
  {
  }

  // ---------------------------------------------------------------------
  // The write loops, one iteration at a time
  // ---------------------------------------------------------------------

  /** Where the information-block loop stands after `k` iterations: the
      cursor on its `k`-th block, `pDataSource` `k` blocks into the
      source, the first `k` writes issued, all of them successful, and the
      card holding what they stored on top of `mem0`. */
  ghost predicate HeaderWriteLoopAt(cfg: Config, f: Faults, t: PiccType, src: seq<byte>, mem0: Memory,
                                    k: nat, c: Cursor, p: nat, trace: seq<Op>, mem: Memory)
  {
    var hw := HeaderWritePlan(cfg, t, src);
    && k <= |hw| && c == CursorAt(StartCursor(InfoStart(cfg, t), t), IsClassic(t), k)
    && p == Offset(t, k)
    && trace == hw[..k] && AllOk(f, trace) && mem == ApplyWrites(mem0, t, trace)
  }

  lemma HeaderWriteLoopStart(cfg: Config, f: Faults, t: PiccType, src: seq<byte>, mem0: Memory)
    ensures HeaderWriteLoopAt(cfg, f, t, src, mem0, 0, StartCursor(InfoStart(cfg, t), t), 0, [], mem0)
  {
  }

  /** Iteration `k` writes the frame of source block `k` to the block at
      the cursor, and the source block lies inside a source that covers
      every block written. */
  lemma HeaderWriteLoopOp(cfg: Config, f: Faults, t: PiccType, src: seq<byte>, mem0: Memory,
                          k: nat, c: Cursor, p: nat, trace: seq<Op>, mem: Memory)
    requires k < HeaderBlocks(cfg, t) && HeaderWriteLoopAt(cfg, f, t, src, mem0, k, c, p, trace, mem)
    ensures HeaderWritePlan(cfg, t, src)[k] == Write(Address(c, IsClassic(t)), HeaderFrame(src, t, k))
    ensures p + BlockSize(t) <= HeaderBlocks(cfg, t) * BlockSize(t)
  {
    HeaderWritesAt(cfg, t, src, HeaderBlocks(cfg, t), k);
    OffsetIsProduct(t, k);
    MulMono(k + 1, HeaderBlocks(cfg, t), BlockSize(t));
  }

  /** A successful write moves the loop on to iteration `k + 1`. */
  lemma HeaderWriteLoopNext(cfg: Config, f: Faults, t: PiccType, src: seq<byte>, mem0: Memory,
                            k: nat, c: Cursor, p: nat, trace: seq<Op>, mem: Memory)
    requires k < HeaderBlocks(cfg, t) && HeaderWriteLoopAt(cfg, f, t, src, mem0, k, c, p, trace, mem)
    requires OpOk(f, Write(Address(c, IsClassic(t)), HeaderFrame(src, t, k)))
    ensures var op := Write(Address(c, IsClassic(t)), HeaderFrame(src, t, k));
      HeaderWriteLoopAt(cfg, f, t, src, mem0, k + 1, Advance(c, IsClassic(t)), p + BlockSize(t),
                        trace + [op], Store(mem, t, op.block, op.data))
  {
    var frame := HeaderFrame(src, t, k);
    HeaderWriteTraceNext(cfg, f, t, src, mem0, k, c, p, trace, mem);
    ApplyWritesSnoc(mem0, t, trace, Address(c, IsClassic(t)), frame);
  }

  lemma HeaderWriteTraceNext(cfg: Config, f: Faults, t: PiccType, src: seq<byte>, mem0: Memory,
                             k: nat, c: Cursor, p: nat, trace: seq<Op>, mem: Memory)
    requires k < HeaderBlocks(cfg, t) && HeaderWriteLoopAt(cfg, f, t, src, mem0, k, c, p, trace, mem)
    requires OpOk(f, Write(Address(c, IsClassic(t)), HeaderFrame(src, t, k)))
    ensures var hw := HeaderWritePlan(cfg, t, src);
      && hw[..k + 1] == trace + [Write(Address(c, IsClassic(t)), HeaderFrame(src, t, k))]
      && AllOk(f, hw[..k + 1])
  {
    var hw := HeaderWritePlan(cfg, t, src);
    HeaderWriteLoopOp(cfg, f, t, src, mem0, k, c, p, trace, mem);
    PrefixSnoc(hw, k);
    AllOkSnoc(f, hw, k);
  }

  /** A failed write ends the information block: the phase fails, the
      operations issued are those so far and the failed write, and the
      card holds what the earlier writes stored. */
  lemma HeaderWriteLoopFail(cfg: Config, f: Faults, t: PiccType, src: seq<byte>, mem0: Memory,
                            k: nat, c: Cursor, p: nat, trace: seq<Op>, mem: Memory)
    requires k < HeaderBlocks(cfg, t) && HeaderWriteLoopAt(cfg, f, t, src, mem0, k, c, p, trace, mem)
    requires !OpOk(f, Write(Address(c, IsClassic(t)), HeaderFrame(src, t, k)))
    ensures var hw := HeaderWritePlan(cfg, t, src);
      && !AllOk(f, hw)
      && Executed(f, hw) == trace + [Write(Address(c, IsClassic(t)), HeaderFrame(src, t, k))]
      && ApplyWrites(mem0, t, Completed(f, hw)) == mem
  {
    var hw := HeaderWritePlan(cfg, t, src);
    HeaderWriteLoopOp(cfg, f, t, src, mem0, k, c, p, trace, mem);
    FailIndexAt(f, hw, k);
    PrefixSnoc(hw, k);
  }

  /** After its last iteration the loop has written the whole information
      block. */
  lemma HeaderWriteLoopDone(cfg: Config, f: Faults, t: PiccType, src: seq<byte>, mem0: Memory,
                            k: nat, c: Cursor, p: nat, trace: seq<Op>, mem: Memory)
    requires k == HeaderBlocks(cfg, t) && HeaderWriteLoopAt(cfg, f, t, src, mem0, k, c, p, trace, mem)
    ensures var hw := HeaderWritePlan(cfg, t, src);
      && AllOk(f, hw) && Executed(f, hw) == trace && ApplyWrites(mem0, t, Completed(f, hw)) == mem
  {
    var hw := HeaderWritePlan(cfg, t, src);
    assert hw[..|hw|] == hw;
    FailIndexAllOk(f, hw);
  }

  /** Where the filename loop stands after `k` of its `n` iterations: the
      cursor on its `k`-th block, `actualAuthentificatedSector` holding the
      sector of the previous iteration on Classic cards (0 before the
      first, and always on Ultralight cards), `position` `k` blocks into the
      name, the operations of the first `k` iterations issued and
      successful, and the card holding what they stored on top of
      `mem0`. */
  ghost predicate NameWriteLoopAt(f: Faults, t: PiccType, c0: Cursor, name: seq<byte>, n: nat, mem0: Memory,
                                  k: nat, c: Cursor, held: int, position: nat, trace: seq<Op>, mem: Memory)
  {
    && k <= n && c == CursorAt(c0, IsClassic(t), k)
    && held == (if IsClassic(t) then SectorBefore(c0, true, k) else 0)
    && position == Offset(t, k)
    && trace == Concat(NameWriteSteps(t, c0, name, n)[..k]) && AllOk(f, trace)
    && mem == ApplyWrites(mem0, t, trace)
  }

  lemma NameWriteLoopStart(f: Faults, t: PiccType, c0: Cursor, name: seq<byte>, n: nat, mem0: Memory)
    ensures NameWriteLoopAt(f, t, c0, name, n, mem0, 0, c0, 0, 0, [], mem0)
  {
    assert NameWriteSteps(t, c0, name, n)[..0] == [];
  }

  /** Deciding authentication from `actualAuthentificatedSector` issues
      exactly the operations of iteration `k`. */
  lemma NameWriteStepAt(f: Faults, t: PiccType, c0: Cursor, name: seq<byte>, n: nat, mem0: Memory,
                        k: nat, c: Cursor, held: int, position: nat, trace: seq<Op>, mem: Memory)
    requires k < n && NameWriteLoopAt(f, t, c0, name, n, mem0, k, c, held, position, trace, mem)
    ensures NameWriteSteps(t, c0, name, n)[k] == NameWriteOps(t, c, held, NameFrame(name, t, k))
  {
    NameWriteStepsAt(t, c0, name, n, k);
  }

  /** An iteration issues its authentication, if any, and then its write;
      it stops at a failed authentication, and changes the card only by
      a successful write. */
  lemma NameWriteOpsRun(f: Faults, t: PiccType, c: Cursor, held: int, frame: seq<byte>, mem: Memory)
    requires |frame| == FRAME
    ensures var auth := NameWriteAuth(t, c, held);
      var w := Write(Address(c, IsClassic(t)), frame);
      var ops := NameWriteOps(t, c, held, frame);
      && (!AllOk(f, auth) ==> !AllOk(f, ops) && Executed(f, ops) == auth
                              && ApplyWrites(mem, t, Completed(f, ops)) == mem)
      && (AllOk(f, auth) ==> (AllOk(f, ops) <==> OpOk(f, w)) && Executed(f, ops) == ops
                             && ApplyWrites(mem, t, Completed(f, ops))
                                == if OpOk(f, w) then Store(mem, t, w.block, frame) else mem)
  {
    var auth := NameWriteAuth(t, c, held);
    var w := Write(Address(c, IsClassic(t)), frame);
    var ops := NameWriteOps(t, c, held, frame);
    if !AllOk(f, auth) {
      FailIndexAt(f, ops, 0);
    } else if OpOk(f, w) {
      FailIndexAllOk(f, ops);
      ApplyWritesAppend(mem, t, auth, [w]);
      assert [w][..0] == [];
    } else {
      assert ops[..|auth|] == auth;
      FailIndexAt(f, ops, |auth|);
    }
  }

  /** A successful iteration moves the loop on to iteration `k + 1`. */
  lemma NameWriteLoopNext(f: Faults, t: PiccType, c0: Cursor, name: seq<byte>, n: nat, mem0: Memory,
                          k: nat, c: Cursor, held: int, position: nat, trace: seq<Op>, mem: Memory)
    requires k < n && NameWriteLoopAt(f, t, c0, name, n, mem0, k, c, held, position, trace, mem)
    requires AllOk(f, NameWriteOps(t, c, held, NameFrame(name, t, k)))
    ensures var ops := NameWriteOps(t, c, held, NameFrame(name, t, k));
      NameWriteLoopAt(f, t, c0, name, n, mem0, k + 1, Advance(c, IsClassic(t)),
                      if IsClassic(t) then c.sector as int else held,
                      position + BlockSize(t), trace + ops, ApplyWrites(mem, t, ops))
  {
    var steps := NameWriteSteps(t, c0, name, n);
    NameWriteStepAt(f, t, c0, name, n, mem0, k, c, held, position, trace, mem);
    ConcatSnoc(steps, k);
    AllOkAppend(f, trace, steps[k]);
    ApplyWritesAppend(mem0, t, trace, steps[k]);
  }

  /** A failing iteration ends the filename phase: it fails, the
      operations issued are those so far and this iteration's up to the
      one that failed, and the card holds what the successful writes
      stored. */
  lemma NameWriteLoopFail(f: Faults, t: PiccType, c0: Cursor, name: seq<byte>, n: nat, mem0: Memory,
                          k: nat, c: Cursor, held: int, position: nat, trace: seq<Op>, mem: Memory)
    requires k < n && NameWriteLoopAt(f, t, c0, name, n, mem0, k, c, held, position, trace, mem)
    requires !AllOk(f, NameWriteOps(t, c, held, NameFrame(name, t, k)))
    ensures var np := NameWritePlan(t, c0, name, n);
      var ops := NameWriteOps(t, c, held, NameFrame(name, t, k));
      && !AllOk(f, np) && Executed(f, np) == trace + Executed(f, ops)
      && ApplyWrites(mem0, t, Completed(f, np)) == ApplyWrites(mem, t, Completed(f, ops))
  {
    var steps := NameWriteSteps(t, c0, name, n);
    var ops := NameWriteOps(t, c, held, NameFrame(name, t, k));
    NameWriteStepAt(f, t, c0, name, n, mem0, k, c, held, position, trace, mem);
    var j := FailIndex(f, ops);
    FailIndexAt(f, ops, j);
    ExecutedConcat(f, steps, k, j);
    ApplyWritesAppend(mem0, t, trace, Completed(f, ops));
  }

  /** A failed authentication ends the filename phase with the card as
      the loop left it. */
  lemma NameAuthFails(f: Faults, t: PiccType, c0: Cursor, name: seq<byte>, n: nat, mem0: Memory, log0: seq<Op>,
                      k: nat, c: Cursor, held: int, position: nat, trace: seq<Op>, mem: Memory)
    requires k < n && NameWriteLoopAt(f, t, c0, name, n, mem0, k, c, held, position, trace, mem)
    requires !AllOk(f, NameWriteAuth(t, c, held))
    ensures var np := NameWritePlan(t, c0, name, n);
      && !AllOk(f, np) && log0 + trace + NameWriteAuth(t, c, held) == log0 + Executed(f, np)
      && ApplyWrites(mem0, t, Completed(f, np)) == mem
  {
    var frame := NameFrame(name, t, k);
    NameWriteOpsRun(f, t, c, held, frame, mem);
    NameWriteLoopFail(f, t, c0, name, n, mem0, k, c, held, position, trace, mem);
    AppendAssoc(log0, trace, NameWriteAuth(t, c, held));
  }

  /** A failed write ends the filename phase with the card as the loop
      left it. */
  lemma NameBlockWriteFails(f: Faults, t: PiccType, c0: Cursor, name: seq<byte>, n: nat, mem0: Memory,
                            log0: seq<Op>, k: nat, c: Cursor, held: int, position: nat, trace: seq<Op>, mem: Memory)
    requires k < n && NameWriteLoopAt(f, t, c0, name, n, mem0, k, c, held, position, trace, mem)
    requires AllOk(f, NameWriteAuth(t, c, held))
    requires !OpOk(f, Write(Address(c, IsClassic(t)), NameFrame(name, t, k)))
    ensures var np := NameWritePlan(t, c0, name, n);
      var w := Write(Address(c, IsClassic(t)), NameFrame(name, t, k));
      && !AllOk(f, np) && log0 + trace + NameWriteAuth(t, c, held) + [w] == log0 + Executed(f, np)
      && ApplyWrites(mem0, t, Completed(f, np)) == mem
  {
    var frame := NameFrame(name, t, k);
    NameWriteOpsRun(f, t, c, held, frame, mem);
    NameWriteLoopFail(f, t, c0, name, n, mem0, k, c, held, position, trace, mem);
    AppendAssoc(log0 + trace, NameWriteAuth(t, c, held), [Write(Address(c, IsClassic(t)), frame)]);
    AppendAssoc(log0, trace, NameWriteOps(t, c, held, frame));
  }

  /** A successful iteration stores its frame and moves the loop on to
      iteration `k + 1`. */
  lemma NameBlockWritten(f: Faults, t: PiccType, c0: Cursor, name: seq<byte>, n: nat, mem0: Memory,
                         log0: seq<Op>, k: nat, c: Cursor, held: int, position: nat, trace: seq<Op>, mem: Memory)
    requires k < n && NameWriteLoopAt(f, t, c0, name, n, mem0, k, c, held, position, trace, mem)
    requires AllOk(f, NameWriteAuth(t, c, held))
    requires OpOk(f, Write(Address(c, IsClassic(t)), NameFrame(name, t, k)))
    ensures var w := Write(Address(c, IsClassic(t)), NameFrame(name, t, k));
      var trace' := trace + NameWriteAuth(t, c, held) + [w];
      && log0 + trace + NameWriteAuth(t, c, held) + [w] == log0 + trace'
      && NameWriteLoopAt(f, t, c0, name, n, mem0, k + 1, Advance(c, IsClassic(t)),
                         if IsClassic(t) then c.sector as int else held,
                         position + BlockSize(t), trace', Store(mem, t, w.block, w.data))
  {
    var frame := NameFrame(name, t, k);
    NameWriteOpsRun(f, t, c, held, frame, mem);
    NameWriteLoopNext(f, t, c0, name, n, mem0, k, c, held, position, trace, mem);
    var w := Write(Address(c, IsClassic(t)), frame);
    var ops := NameWriteOps(t, c, held, frame);
    FailIndexAllOk(f, ops);
    assert ApplyWrites(mem, t, ops) == Store(mem, t, w.block, w.data);
    AppendAssoc(trace, NameWriteAuth(t, c, held), [w]);
    AppendAssoc(log0 + trace, NameWriteAuth(t, c, held), [w]);
  }

  /** After all `n` iterations the loop has issued the whole filename
      phase without failure. */
  lemma NameWriteLoopDone(f: Faults, t: PiccType, c0: Cursor, name: seq<byte>, n: nat, mem0: Memory,
                          k: nat, c: Cursor, held: int, position: nat, trace: seq<Op>, mem: Memory)
    requires k == n && NameWriteLoopAt(f, t, c0, name, n, mem0, k, c, held, position, trace, mem)
    ensures var np := NameWritePlan(t, c0, name, n);
      && AllOk(f, np) && Executed(f, np) == trace && ApplyWrites(mem0, t, Completed(f, np)) == mem
  {
    var steps := NameWriteSteps(t, c0, name, n);
    assert steps[..n] == steps;
    FailIndexAllOk(f, trace);
  }

  /** The write path as three phases: the first authentication, the
      information block and the filename. It stops in the first phase that
      fails, and the card ends up holding what the writes before the
      failure stored. */
  lemma WritePhases(f: Faults, t: PiccType, mem0: Memory, a: Op, hw: seq<Op>, nw: seq<Op>)
    requires !a.Write?
    ensures var plan := [a] + hw + nw;
      && AllOk(f, plan) == (OpOk(f, a) && AllOk(f, hw) && AllOk(f, nw))
      && Executed(f, plan)
         == (if !OpOk(f, a) then [a]
             else if !AllOk(f, hw) then [a] + Executed(f, hw)
             else [a] + hw + Executed(f, nw))
      && ApplyWrites(mem0, t, Completed(f, plan))
         == (if !OpOk(f, a) then mem0
             else if !AllOk(f, hw) then ApplyWrites(mem0, t, Completed(f, hw))
             else ApplyWrites(ApplyWrites(mem0, t, hw), t, Completed(f, nw)))
  {
    assert [a] + hw + nw == [a] + (hw + nw);
    if !OpOk(f, a) {
      FirstPhaseFails(f, t, mem0, a, hw + nw);
    } else {
      FirstPhaseSucceeds(f, t, mem0, a, hw + nw);
      if !AllOk(f, hw) {
        ExecutedBefore(f, hw, nw);
      } else {
        ExecutedAfter(f, hw, nw);
        ApplyWritesAppend(mem0, t, hw, Completed(f, nw));
      }
    }
  }

  /** Once the card is present, a supported card type makes
      `WriteCardInformation` run its three phases in order, each only after
      the one before succeeded: the authentication, the information block
      and the filename. */
  lemma WriteCardPhases(cfg: Config, t: PiccType, f: Faults, volume: byte, resumable: bool,
                        name: seq<byte>, junk: seq<byte>, mem0: Memory)
    requires Supported(t)
    ensures var a := WriteAuthOp(cfg, t);
      var hw := HeaderWritePlan(cfg, t, HeaderSource(WrittenHeader(cfg, volume, resumable, |name|), junk));
      var nw := NameWritePlan(t, StartCursor(NameStart(cfg, t), t), name, NameBlocks(|name|, t));
      var w := WriteCard(cfg, t, f, true, volume, resumable, name, junk);
      && w.ok == (OpOk(f, a) && AllOk(f, hw) && AllOk(f, nw))
      && w.trace
         == [a] + (if !OpOk(f, a) then [] else if !AllOk(f, hw) then Executed(f, hw) else hw + Executed(f, nw))
      && ApplyWrites(mem0, t, w.written)
         == (if !OpOk(f, a) then mem0
             else if !AllOk(f, hw) then ApplyWrites(mem0, t, Completed(f, hw))
             else ApplyWrites(ApplyWrites(mem0, t, hw), t, Completed(f, nw)))
  {
    var h := WrittenHeader(cfg, volume, resumable, |name|);
    var a := WriteAuthOp(cfg, t);
    var hw := HeaderWritePlan(cfg, t, HeaderSource(h, junk));
    var nw := NameWritePlan(t, StartCursor(NameStart(cfg, t), t), name, NameBlocks(|name|, t));
    NameLimitNeverRejects(cfg, volume, resumable, |name|);
    WritePhases(f, t, mem0, a, hw, nw);
    if !OpOk(f, a) {
      assert [a] + [] == [a];
    } else if AllOk(f, hw) {
      AppendAssoc([a], hw, Executed(f, nw));
    }
  }

  /** A sequence whose first operation fails issues only that one and
      changes nothing. */
  lemma FirstPhaseFails(f: Faults, t: PiccType, mem0: Memory, a: Op, rest: seq<Op>)
    requires !OpOk(f, a)
    ensures !AllOk(f, [a] + rest) && Executed(f, [a] + rest) == [a]
    ensures ApplyWrites(mem0, t, Completed(f, [a] + rest)) == mem0
  {
    var plan := [a] + rest;
    assert plan[..0] == [];
    FailIndexAt(f, plan, 0);
    assert plan[..1] == [a];
  }

  /** After a first operation that succeeds and stores nothing, a
      sequence goes on as its remainder would. */
  lemma FirstPhaseSucceeds(f: Faults, t: PiccType, mem0: Memory, a: Op, rest: seq<Op>)
    requires OpOk(f, a) && !a.Write?
    ensures AllOk(f, [a] + rest) == AllOk(f, rest)
    ensures Executed(f, [a] + rest) == [a] + Executed(f, rest)
    ensures ApplyWrites(mem0, t, Completed(f, [a] + rest)) == ApplyWrites(mem0, t, Completed(f, rest))
  {
    AllOkSingle(f, a);
    ExecutedAfter(f, [a], rest);
    ApplyWritesAppend(mem0, t, [a], Completed(f, rest));
    assert [a][..0] == [];
  }

  // ---------------------------------------------------------------------
  // Writing a record and reading it back
  // ---------------------------------------------------------------------

  /** The information blocks hold the frames the header loop writes from
      `src`. */
  ghost predicate HoldsHeader(cfg: Config, t: PiccType, src: seq<byte>, mem: Memory)
  {
    forall k :: 0 <= k < HeaderBlocks(cfg, t) ==>
      Stored(mem, t, PageAfter(InfoStart(cfg, t), k)) == HeaderFrame(src, t, k)[..NativeSize(t)]
  }

  /** Away from the end of the 8-bit range, `PageAfter` adds. */
  lemma PageAfterNoWrap(b: byte, i: nat)
    requires b as int + i < 256
    ensures PageAfter(b, i) as int == b as int + i
  {
  }

  /** Writes to consecutive block numbers from `start`, with no 8-bit
      wrap, leave each block holding what its write stored. */
  lemma ConsecutiveWritesHold(mem0: Memory, t: PiccType, start: byte, ops: seq<Op>, k: nat)
    requires start as int + |ops| <= 256 && k < |ops|
    requires forall j :: 0 <= j < |ops| ==>
      ops[j].Write? && ops[j].block == PageAfter(start, j) && |ops[j].data| == FRAME
    ensures Stored(ApplyWrites(mem0, t, ops), t, PageAfter(start, k)) == ops[k].data[..NativeSize(t)]
  {
    PageAfterNoWrap(start, k);
    forall j | k < j < |ops|
      ensures !Touches(ops[j], ops[k].block)
    {
      PageAfterNoWrap(start, j);
    }
    ApplyWritesLast(mem0, t, ops, k);
  }

  /** Writes to consecutive block numbers from `start`, with no 8-bit
      wrap, leave every block before `start` alone. */
  lemma ConsecutiveWritesAvoid(mem: Memory, t: PiccType, start: byte, ws: seq<Op>, b: byte)
    requires start as int + |ws| <= 256 && b < start
    requires forall i :: 0 <= i < |ws| ==> ws[i].Write? && ws[i].block == PageAfter(start, i)
    ensures Stored(ApplyWrites(mem, t, ws), t, b) == Stored(mem, t, b)
  {
    forall i | 0 <= i < |ws|
      ensures !Touches(ws[i], b)
    {
      PageAfterNoWrap(start, i);
    }
    ApplyWritesUntouched(mem, t, ws, b);
  }

  /** Where the 8-bit block numbers of the information block do not wrap,
      the header loop leaves each of its blocks holding its frame. */
  lemma HeaderWritesHold(cfg: Config, t: PiccType, src: seq<byte>, mem0: Memory)
    requires IsClassic(t) || InfoStart(cfg, t) as int < ULTRALIGHT_SECTOR_SIZE
    requires InfoStart(cfg, t) as int + HeaderBlocks(cfg, t) <= 256
    ensures HoldsHeader(cfg, t, src, ApplyWrites(mem0, t, HeaderWritePlan(cfg, t, src)))
  {
    forall k | 0 <= k < HeaderBlocks(cfg, t)
      ensures Stored(ApplyWrites(mem0, t, HeaderWritePlan(cfg, t, src)), t, PageAfter(InfoStart(cfg, t), k))
           == HeaderFrame(src, t, k)[..NativeSize(t)]
    {
      HeaderWriteHolds(cfg, t, src, mem0, k);
    }
  }

  /** Information block `k` holds its frame after the header loop. */
  lemma HeaderWriteHolds(cfg: Config, t: PiccType, src: seq<byte>, mem0: Memory, k: nat)
    requires IsClassic(t) || InfoStart(cfg, t) as int < ULTRALIGHT_SECTOR_SIZE
    requires InfoStart(cfg, t) as int + HeaderBlocks(cfg, t) <= 256 && k < HeaderBlocks(cfg, t)
    ensures Stored(ApplyWrites(mem0, t, HeaderWritePlan(cfg, t, src)), t, PageAfter(InfoStart(cfg, t), k))
         == HeaderFrame(src, t, k)[..NativeSize(t)]
  {
    HeaderWritePlanWrites(cfg, t, src);
    ConsecutiveWritesHold(mem0, t, InfoStart(cfg, t), HeaderWritePlan(cfg, t, src), k);
  }

  /** Blocks holding the frames of an encoded header decode, through the
      read path's copy into the structure, to that header, provided the
      blocks the read path copies cover the header fields. */
  lemma HeldHeaderDecodes(cfg: Config, t: PiccType, h: Header, junk: seq<byte>, mem: Memory, residue: seq<byte>)
    requires Supported(t) && |residue| == cfg.infoSize
    requires HEADER_BYTES <= Offset(t, HeaderPages(cfg, t))
    requires HoldsHeader(cfg, t, HeaderSource(h, junk), mem)
    ensures Decode(HeaderRaw(cfg, t, mem, residue)) == h
  {
    var raw := HeaderRaw(cfg, t, mem, residue);
    var enc := Encode(h);
    forall i | 0 <= i < HEADER_BYTES
      ensures raw[i] == enc[i]
    {
      var k, j := if IsClassic(t) then 0 else i / 4, if IsClassic(t) then i else i % 4;
      HeldHeaderByte(cfg, t, HeaderSource(h, junk), mem, residue, k, j);
    }
    assert raw[..HEADER_BYTES] == enc[..HEADER_BYTES];
    DecodeDependsOnFields(raw, enc);
    DecodeEncode(h);
  }

  /** Byte `k * blockSize + j` (byte `j` of information block `k`) of the
      structure the read path fills from blocks holding the frames of
      `src` is that byte of `src`, for the blocks the read path copies. */
  lemma HeldHeaderByte(cfg: Config, t: PiccType, src: seq<byte>, mem: Memory, residue: seq<byte>,
                       k: nat, j: nat)
    requires |residue| == cfg.infoSize && j < BlockSize(t)
    requires Offset(t, k) + j < Offset(t, HeaderPages(cfg, t)) && Offset(t, k) + j < |src|
    requires HoldsHeader(cfg, t, src, mem)
    ensures HeaderRaw(cfg, t, mem, residue)[Offset(t, k) + j] == src[Offset(t, k) + j]
  {
    HeaderRawByte(cfg, t, mem, residue, k, j);
    HeaderFieldBlock(cfg, t, k);
    HeldBlockByte(cfg, t, src, mem, k, j);
  }

  /** Byte `j` of information block `k`, for a block the read path
      copies, lands at offset `k * blockSize + j` of the structure. */
  lemma HeaderRawByte(cfg: Config, t: PiccType, mem: Memory, residue: seq<byte>, k: nat, j: nat)
    requires |residue| == cfg.infoSize && j < BlockSize(t)
    requires Offset(t, k) + j < Offset(t, HeaderPages(cfg, t))
    ensures HeaderRaw(cfg, t, mem, residue)[Offset(t, k) + j]
         == Stored(mem, t, PageAfter(InfoStart(cfg, t), k))[j]
  {
    HeaderPagesFit(cfg, t);
    OverlayAt(mem, t, InfoStart(cfg, t), residue, Offset(t, HeaderPages(cfg, t)), Offset(t, k) + j);
    HeaderByteAt(mem, t, InfoStart(cfg, t), k, j);
  }

  /** Byte `k * blockSize + j` of the information blocks is byte `j` of
      block `k`. */
  lemma HeaderByteAt(mem: Memory, t: PiccType, start: byte, k: nat, j: nat)
    requires j < BlockSize(t)
    ensures HeaderByte(mem, t, start, Offset(t, k) + j) == Stored(mem, t, PageAfter(start, k))[j]
  {
    OffsetDivMod(t, k, j);
  }

  /** Byte `j` of information block `k`, on a card holding the header's
      frames, is the source byte at offset `k * blockSize + j`. */
  lemma HeldBlockByte(cfg: Config, t: PiccType, src: seq<byte>, mem: Memory, k: nat, j: nat)
    requires HoldsHeader(cfg, t, src, mem)
    requires k < HeaderBlocks(cfg, t) && j < BlockSize(t) <= NativeSize(t) && Offset(t, k) + j < |src|
    ensures Stored(mem, t, PageAfter(InfoStart(cfg, t), k))[j] == src[Offset(t, k) + j]
  {
    var w := Window(src, Offset(t, k), BlockSize(t));
    assert Stored(mem, t, PageAfter(InfoStart(cfg, t), k))[j] == PadTo(w, FRAME)[j];
  }

  /** An information block the read path copies is one the write loop
      writes. */
  lemma HeaderFieldBlock(cfg: Config, t: PiccType, k: nat)
    requires Offset(t, k) < Offset(t, HeaderPages(cfg, t))
    ensures k < HeaderPages(cfg, t) <= HeaderBlocks(cfg, t)
  {
    RoundUpDivBounds(cfg.infoSize, BlockSize(t));
  }

  /** The writes of the filename loop leave the information blocks alone
      when the filename lies after them and its block numbers do not
      wrap. */
  lemma NameWritesKeepHeader(cfg: Config, t: PiccType, src: seq<byte>, name: seq<byte>, mem: Memory)
    requires IsClassic(t) || NameStart(cfg, t) as int < ULTRALIGHT_SECTOR_SIZE
    requires InfoStart(cfg, t) as int + HeaderBlocks(cfg, t) <= NameStart(cfg, t) as int
    requires NameStart(cfg, t) as int + NameBlocks(|name|, t) <= 256
    requires HoldsHeader(cfg, t, src, mem)
    ensures HoldsHeader(cfg, t, src,
      ApplyWrites(mem, t, NameWritePlan(t, StartCursor(NameStart(cfg, t), t), name, NameBlocks(|name|, t))))
  {
    var c0 := StartCursor(NameStart(cfg, t), t);
    var nw := NameWritePlan(t, c0, name, NameBlocks(|name|, t));
    var w := WritesOf(nw);
    StartCursorAddress(NameStart(cfg, t), t);
    NameWritePlanWrites(t, c0, name, NameBlocks(|name|, t));
    ApplyWritesOfWrites(mem, t, nw);
    forall k | 0 <= k < HeaderBlocks(cfg, t)
      ensures Stored(ApplyWrites(mem, t, w), t, PageAfter(InfoStart(cfg, t), k))
           == Stored(mem, t, PageAfter(InfoStart(cfg, t), k))
    {
      PageAfterNoWrap(InfoStart(cfg, t), k);
      ConsecutiveWritesAvoid(mem, t, NameStart(cfg, t), w, PageAfter(InfoStart(cfg, t), k));
    }
  }

  /** After a write that succeeded throughout, under the layout of
      `NameWritesKeepHeader`, the information blocks hold the frames of the
      written header. */
  lemma WrittenCardHoldsHeader(cfg: Config, t: PiccType, f: Faults, volume: byte, resumable: bool,
                               name: seq<byte>, junk: seq<byte>, mem0: Memory)
    requires Supported(t)
    requires IsClassic(t) || NameStart(cfg, t) as int < ULTRALIGHT_SECTOR_SIZE
    requires InfoStart(cfg, t) as int + HeaderBlocks(cfg, t) <= NameStart(cfg, t) as int
    requires NameStart(cfg, t) as int + NameBlocks(|name|, t) <= 256
    requires WriteCard(cfg, t, f, true, volume, resumable, name, junk).ok
    ensures HoldsHeader(cfg, t, HeaderSource(WrittenHeader(cfg, volume, resumable, |name|), junk),
                        ApplyWrites(mem0, t, WriteCard(cfg, t, f, true, volume, resumable, name, junk).written))
  {
    var src := HeaderSource(WrittenHeader(cfg, volume, resumable, |name|), junk);
    var a := WriteAuthOp(cfg, t);
    var hw := HeaderWritePlan(cfg, t, src);
    var nw := NameWritePlan(t, StartCursor(NameStart(cfg, t), t), name, NameBlocks(|name|, t));
    var plan := WritePlan(cfg, t, volume, resumable, name, junk);
    NameLimitNeverRejects(cfg, volume, resumable, |name|);
    FailIndexAllOk(f, plan);
    ApplyWritesAppend(mem0, t, [a] + hw, nw);
    ApplyWritesAppend(mem0, t, [a], hw);
    assert ApplyWrites(mem0, t, [a]) == mem0 by {
      assert [a][..0] == [];
    }
    HeaderWritesHold(cfg, t, src, mem0);
    NameWritesKeepHeader(cfg, t, src, name, ApplyWrites(mem0, t, hw));
  }

  /** A card whose information blocks hold a version-1 header with the
      magic cookie, read without failure up to the header, yields that
      header's metadata, and is rejected as having an empty filename
      exactly when the header's filename length is 0. */
  lemma ReadBackHeader(cfg: Config, t: PiccType, f: Faults, h: Header, junk: seq<byte>, mem: Memory,
                       residue: seq<byte>)
    requires cfg.Valid() && cfg.SizesAgree() && Supported(t) && |residue| == cfg.rawSize
    requires HEADER_BYTES <= Offset(t, HeaderPages(cfg, t))
    requires HoldsHeader(cfg, t, HeaderSource(h, junk), mem)
    requires h.cookie == cfg.magic && h.version == VERSION_1
    requires OpOk(f, ReadAuthOp(cfg, t)) && AllOk(f, HeaderReadPlan(cfg, t))
    ensures var r := ReadCard(cfg, t, f, mem, residue);
      && r.metadata == Metadata(h.volume, h.resumable)
      && (r.status == Rejected(EmptyName) <==> h.fileNameLength == 0)
  {
    HeldHeaderDecodes(cfg, t, h, junk, mem, residue);
  }

  /** A record written without failure onto a card whose filename blocks
      follow its information blocks (with no 8-bit wrap, and on Ultralight
      cards inside the first 0x86 pages) reads back with the written volume
      and resumable flag; it is rejected as having an empty filename
      exactly when the filename length is a multiple of 256. */
  lemma WrittenRecordReadsBack(cfg: Config, t: PiccType, f: Faults, volume: byte, resumable: bool,
                               name: seq<byte>, junk: seq<byte>, mem0: Memory, residue: seq<byte>)
    requires cfg.Valid() && cfg.SizesAgree() && Supported(t) && |residue| == cfg.rawSize
    requires HEADER_BYTES <= Offset(t, HeaderPages(cfg, t))
    requires IsClassic(t) || NameStart(cfg, t) as int < ULTRALIGHT_SECTOR_SIZE
    requires InfoStart(cfg, t) as int + HeaderBlocks(cfg, t) <= NameStart(cfg, t) as int
    requires NameStart(cfg, t) as int + NameBlocks(|name|, t) <= 256
    requires WriteCard(cfg, t, f, true, volume, resumable, name, junk).ok
    requires OpOk(f, ReadAuthOp(cfg, t)) && AllOk(f, HeaderReadPlan(cfg, t))
    ensures var mem := ApplyWrites(mem0, t, WriteCard(cfg, t, f, true, volume, resumable, name, junk).written);
      var r := ReadCard(cfg, t, f, mem, residue);
      && r.metadata == Metadata(volume, resumable)
      && (r.status == Rejected(EmptyName) <==> |name| % 256 == 0)
  {
    var h := WrittenHeader(cfg, volume, resumable, |name|);
    WrittenCardHoldsHeader(cfg, t, f, volume, resumable, name, junk, mem0);
    ReadBackHeader(cfg, t, f, h, junk,
                   ApplyWrites(mem0, t, WriteCard(cfg, t, f, true, volume, resumable, name, junk).written), residue);
  }

  // ---------------------------------------------------------------------
  // The filename round trip
  // ---------------------------------------------------------------------

  /** The blocks the read loop visits in its first `n` iterations hold the
      frames the write path builds from `name`, frame `k` in the block of
      iteration `k`. */
  ghost predicate HoldsName(t: PiccType, start: byte, name: seq<byte>, n: nat, mem: Memory)
  {
    forall k :: 0 <= k < n ==>
      Stored(mem, t, NameBlock(start, k, IsClassic(t))) == NameFrame(name, t, k)[..NativeSize(t)]
  }

  /** The read loop visits no more blocks than the write loop writes. */
  lemma ReadCountWithinBlocks(len: nat, t: PiccType)
    requires len > 0
    ensures NameReadCount(len, NameChunk(len, t)) <= NameBlocks(len, t)
  {
    var bs := BlockSize(t);
    var a, b := NameReadCount(len, NameChunk(len, t)), NameBlocks(len, t);
    RoundUpDivBounds(len + 1, bs);
    if len < bs {
      assert len / len == 1 && len % len == 0;
    } else {
      RoundUpDivBounds(len, bs);
    }
  }

  /** The first `cardBlockSize` bytes read from a block holding frame `k`
      of a NUL-free name are the name's `k`-th block, zero-padded. */
  lemma HeldNameImage(mem: Memory, t: PiccType, b: byte, name: seq<byte>, k: nat)
    requires Supported(t) && NoNul(name)
    requires Stored(mem, t, b) == NameFrame(name, t, k)[..NativeSize(t)]
    ensures ReadImage(mem, t, b)[..BlockSize(t)]
         == PadTo(Window(name, k * BlockSize(t), BlockSize(t)), BlockSize(t))
  {
    var bs := BlockSize(t);
    var w := Window(name, k * bs, bs);
    NameFrameContents(name, t, k);
    ReadImageBlock(mem, t, b);
    PadToPrefix(w, FRAME, bs);
    assert Stored(mem, t, b)[..bs] == PadTo(w, FRAME)[..NativeSize(t)][..bs];
  }

  /** From a block holding frame `k` of a NUL-free name, iteration `k` of
      the read loop takes the name's `k`-th chunk. */
  lemma HeldNamePiece(mem: Memory, t: PiccType, start: byte, name: seq<byte>, k: nat)
    requires Supported(t) && NoNul(name) && |name| > 0
    requires k < NameReadCount(|name|, NameChunk(|name|, t))
    requires Stored(mem, t, NameBlock(start, k, IsClassic(t))) == NameFrame(name, t, k)[..NativeSize(t)]
    ensures var chunk := NameChunk(|name|, t);
      NamePiece(mem, t, start, chunk, k) == Window(name, ChunkPosition(k, chunk), chunk)
  {
    var len, bs := |name|, BlockSize(t);
    var chunk := NameChunk(len, t);
    var b := NameBlock(start, k, IsClassic(t));
    HeldNameImage(mem, t, b, name, k);
    if chunk == bs {
      ChunkPositionIsProduct(k, chunk);
    } else {
      assert len / len == 1 && len % len == 0;
      assert k == 0;
    }
    PaddedChunk(name, k * bs, bs, chunk, ReadImage(mem, t, b));
  }

  /** When each of the first `m` iterations of the read loop takes the
      matching chunk of a name, together they assemble the name's first
      `m` chunks. */
  lemma {:induction false} ChunkedNamePrefix(mem: Memory, t: PiccType, start: byte, name: seq<byte>,
                                              chunk: nat, m: nat)
    requires 0 < chunk <= FRAME && (m > 0 ==> ChunkPosition(m - 1, chunk) < |name|)
    requires forall k {:trigger NamePiece(mem, t, start, chunk, k)} :: 0 <= k < m ==>
      NamePiece(mem, t, start, chunk, k) == Window(name, ChunkPosition(k, chunk), chunk)
    ensures NameText(mem, t, start, chunk, m) == name[..Min(|name|, ChunkPosition(m, chunk))]
  {
    if m > 0 {
      ChunkedNamePrefix(mem, t, start, name, chunk, m - 1);
      ChunkedNameStep(mem, t, start, name, chunk, m);
    } else {
      assert name[..0] == [];
    }
  }

  /** One iteration of `ChunkedNamePrefix`. */
  lemma ChunkedNameStep(mem: Memory, t: PiccType, start: byte, name: seq<byte>, chunk: nat, m: nat)
    requires 0 < chunk <= FRAME && 0 < m && ChunkPosition(m - 1, chunk) < |name|
    requires NameText(mem, t, start, chunk, m - 1) == name[..Min(|name|, ChunkPosition(m - 1, chunk))]
    requires NamePiece(mem, t, start, chunk, m - 1) == Window(name, ChunkPosition(m - 1, chunk), chunk)
    ensures NameText(mem, t, start, chunk, m) == name[..Min(|name|, ChunkPosition(m, chunk))]
  {
    var p := ChunkPosition(m - 1, chunk);
    var prev, piece := NameText(mem, t, start, chunk, m - 1), NamePiece(mem, t, start, chunk, m - 1);
    WindowExtends(name, p, chunk, prev, piece);
    assert NameText(mem, t, start, chunk, m) == prev + piece;
  }

  /** Over blocks holding the frames of a NUL-free, non-empty name, the
      read loop assembles exactly that name. */
  lemma HeldNameReadsBack(mem: Memory, t: PiccType, start: byte, name: seq<byte>)
    requires Supported(t) && NoNul(name) && |name| > 0
    requires HoldsName(t, start, name, NameReadCount(|name|, NameChunk(|name|, t)), mem)
    ensures var chunk := NameChunk(|name|, t);
      NameText(mem, t, start, chunk, NameReadCount(|name|, chunk)) == name
  {
    var chunk := NameChunk(|name|, t);
    var n := NameReadCount(|name|, chunk);
    HeldNamePieces(mem, t, start, name);
    ChunkCountCovers(|name|, chunk);
    ChunkedNamePrefix(mem, t, start, name, chunk, n);
    assert name[..|name|] == name;
  }

  /** `HeldNamePiece` for every iteration of the read loop. */
  lemma HeldNamePieces(mem: Memory, t: PiccType, start: byte, name: seq<byte>)
    requires Supported(t) && NoNul(name) && |name| > 0
    requires HoldsName(t, start, name, NameReadCount(|name|, NameChunk(|name|, t)), mem)
    ensures var chunk := NameChunk(|name|, t);
      forall k {:trigger NamePiece(mem, t, start, chunk, k)} :: 0 <= k < NameReadCount(|name|, chunk) ==>
        NamePiece(mem, t, start, chunk, k) == Window(name, ChunkPosition(k, chunk), chunk)
  {
    var chunk := NameChunk(|name|, t);
    forall k | 0 <= k < NameReadCount(|name|, chunk)
      ensures NamePiece(mem, t, start, chunk, k) == Window(name, ChunkPosition(k, chunk), chunk)
    {
      HeldNamePiece(mem, t, start, name, k);
    }
  }

  /** Where no trailer lies among the filename blocks and the 8-bit block
      numbers do not wrap, the filename loop leaves every block the read
      loop visits holding its frame. */
  lemma NameWritesHoldName(t: PiccType, start: byte, name: seq<byte>, mem: Memory)
    requires IsClassic(t) || start as int < ULTRALIGHT_SECTOR_SIZE
    requires start as int + NameBlocks(|name|, t) <= 256
    requires IsClassic(t) ==>
      forall j :: start as int < j < start as int + NameBlocks(|name|, t) ==> !IsTrailer(j)
    ensures HoldsName(t, start, name, NameBlocks(|name|, t),
                      ApplyWrites(mem, t, NameWritePlan(t, StartCursor(start, t), name, NameBlocks(|name|, t))))
  {
    var n := NameBlocks(|name|, t);
    var c0 := StartCursor(start, t);
    var nw := NameWritePlan(t, c0, name, n);
    StartCursorAddress(start, t);
    NameWritePlanWrites(t, c0, name, n);
    ApplyWritesOfWrites(mem, t, nw);
    FramesHoldName(t, start, name, n, mem, WritesOf(nw));
  }

  /** Frame `k` of the filename written to block `start + k`, for each
      `k`, leaves the blocks the read loop visits holding those frames. */
  lemma FramesHoldName(t: PiccType, start: byte, name: seq<byte>, n: nat, mem: Memory, w: seq<Op>)
    requires start as int + n <= 256 && |w| == n
    requires IsClassic(t) ==> forall j :: start as int < j < start as int + n ==> !IsTrailer(j)
    requires forall j :: 0 <= j < n ==> w[j] == Write(PageAfter(start, j), NameFrame(name, t, j))
    ensures HoldsName(t, start, name, n, ApplyWrites(mem, t, w))
  {
    forall j | 0 <= j < |w|
      ensures w[j].Write? && w[j].block == PageAfter(start, j) && |w[j].data| == FRAME
    {
    }
    forall k | 0 <= k < n
      ensures Stored(ApplyWrites(mem, t, w), t, NameBlock(start, k, IsClassic(t)))
              == NameFrame(name, t, k)[..NativeSize(t)]
    {
      BlockHoldsWrite(t, start, mem, w, k);
    }
  }

  /** One block of `FramesHoldName`: the block iteration `k` of the read
      loop visits holds what write `k` stored. */
  lemma BlockHoldsWrite(t: PiccType, start: byte, mem: Memory, w: seq<Op>, k: nat)
    requires start as int + |w| <= 256 && k < |w|
    requires IsClassic(t) ==> forall j :: start as int < j <= start as int + k ==> !IsTrailer(j)
    requires forall j :: 0 <= j < |w| ==> w[j].Write? && w[j].block == PageAfter(start, j) && |w[j].data| == FRAME
    ensures Stored(ApplyWrites(mem, t, w), t, NameBlock(start, k, IsClassic(t))) == w[k].data[..NativeSize(t)]
  {
    NameBlockContiguous(start, k, IsClassic(t));
    PageAfterNoWrap(start, k);
    ConsecutiveWritesHold(mem, t, start, w, k);
  }

  /** After a write that succeeded throughout, under the layout of
      `NameWritesHoldName` and `WrittenCardHoldsHeader`, the blocks the read
      loop visits hold the frames of the written filename. */
  lemma WrittenCardHoldsName(cfg: Config, t: PiccType, f: Faults, volume: byte, resumable: bool,
                             name: seq<byte>, junk: seq<byte>, mem0: Memory)
    requires Supported(t)
    requires IsClassic(t) || NameStart(cfg, t) as int < ULTRALIGHT_SECTOR_SIZE
    requires NameStart(cfg, t) as int + NameBlocks(|name|, t) <= 256
    requires IsClassic(t) ==>
      forall j :: NameStart(cfg, t) as int < j < NameStart(cfg, t) as int + NameBlocks(|name|, t) ==> !IsTrailer(j)
    requires WriteCard(cfg, t, f, true, volume, resumable, name, junk).ok
    ensures HoldsName(t, NameStart(cfg, t), name, NameBlocks(|name|, t),
                      ApplyWrites(mem0, t, WriteCard(cfg, t, f, true, volume, resumable, name, junk).written))
  {
    var src := HeaderSource(WrittenHeader(cfg, volume, resumable, |name|), junk);
    var a := WriteAuthOp(cfg, t);
    var hw := HeaderWritePlan(cfg, t, src);
    var nw := NameWritePlan(t, StartCursor(NameStart(cfg, t), t), name, NameBlocks(|name|, t));
    var plan := WritePlan(cfg, t, volume, resumable, name, junk);
    NameLimitNeverRejects(cfg, volume, resumable, |name|);
    FailIndexAllOk(f, plan);
    ApplyWritesAppend(mem0, t, [a] + hw, nw);
    NameWritesHoldName(t, NameStart(cfg, t), name, ApplyWrites(mem0, t, [a] + hw));
  }

  /** A card whose header carries the magic cookie, version 1 and a
      non-zero filename length, read without failure, is accepted with the
      header's metadata and the filename the read loop assembles. */
  lemma ReadCardAccepts(cfg: Config, t: PiccType, f: Faults, mem: Memory, residue: seq<byte>)
    requires cfg.Valid() && cfg.SizesAgree() && Supported(t) && |residue| == cfg.rawSize
    requires OpOk(f, ReadAuthOp(cfg, t)) && AllOk(f, HeaderReadPlan(cfg, t))
    requires var h := Decode(HeaderRaw(cfg, t, mem, residue));
      && h.cookie == cfg.magic && h.version == VERSION_1 && h.fileNameLength != 0
      && AllOk(f, NameReadPlan(t, NameStart(cfg, t),
                               NameReadCount(h.fileNameLength as nat, NameChunk(h.fileNameLength as nat, t))))
    ensures var h := Decode(HeaderRaw(cfg, t, mem, residue));
      var chunk := NameChunk(h.fileNameLength as nat, t);
      var r := ReadCard(cfg, t, f, mem, residue);
      && r.status == Accepted
      && r.metadata == Metadata(h.volume, h.resumable)
      && r.name == NameText(mem, t, NameStart(cfg, t), chunk, NameReadCount(h.fileNameLength as nat, chunk))
  {
  }

  /** A record written without failure, under the layout of
      `WrittenRecordReadsBack`, with a NUL-free filename of 1 to 255 bytes
      whose blocks hold no Classic trailer, reads back accepted with the
      written filename, volume and resumable flag when the filename reads
      succeed. */
  lemma WrittenNameReadsBack(cfg: Config, t: PiccType, f: Faults, volume: byte, resumable: bool,
                             name: seq<byte>, junk: seq<byte>, mem0: Memory, residue: seq<byte>)
    requires cfg.Valid() && cfg.SizesAgree() && Supported(t) && |residue| == cfg.rawSize
    requires HEADER_BYTES <= Offset(t, HeaderPages(cfg, t))
    requires IsClassic(t) || NameStart(cfg, t) as int < ULTRALIGHT_SECTOR_SIZE
    requires InfoStart(cfg, t) as int + HeaderBlocks(cfg, t) <= NameStart(cfg, t) as int
    requires NameStart(cfg, t) as int + NameBlocks(|name|, t) <= 256
    requires NoNul(name) && 0 < |name| < 256
    requires IsClassic(t) ==>
      forall j :: NameStart(cfg, t) as int < j < NameStart(cfg, t) as int + NameBlocks(|name|, t) ==> !IsTrailer(j)
    requires WriteCard(cfg, t, f, true, volume, resumable, name, junk).ok
    requires OpOk(f, ReadAuthOp(cfg, t)) && AllOk(f, HeaderReadPlan(cfg, t))
    requires AllOk(f, NameReadPlan(t, NameStart(cfg, t), NameReadCount(|name|, NameChunk(|name|, t))))
    ensures var mem := ApplyWrites(mem0, t, WriteCard(cfg, t, f, true, volume, resumable, name, junk).written);
      var r := ReadCard(cfg, t, f, mem, residue);
      && r.status == Accepted
      && r.name == name
      && r.metadata == Metadata(volume, resumable)
  {
    var h := WrittenHeader(cfg, volume, resumable, |name|);
    var mem := ApplyWrites(mem0, t, WriteCard(cfg, t, f, true, volume, resumable, name, junk).written);
    NameFitsKeepsLength(cfg, volume, resumable, |name|);
    WrittenCardHoldsHeader(cfg, t, f, volume, resumable, name, junk, mem0);
    WrittenCardHoldsName(cfg, t, f, volume, resumable, name, junk, mem0);
    ReadBackName(cfg, t, f, h, junk, name, mem, residue);
  }

  /** A card whose information blocks hold a version-1 header with the
      magic cookie and a filename length of `|name|`, and whose filename
      blocks hold the frames of the NUL-free, non-empty `name`, read without
      failure, is accepted with that name and the header's metadata. */
  lemma ReadBackName(cfg: Config, t: PiccType, f: Faults, h: Header, junk: seq<byte>, name: seq<byte>,
                     mem: Memory, residue: seq<byte>)
    requires cfg.Valid() && cfg.SizesAgree() && Supported(t) && |residue| == cfg.rawSize
    requires HEADER_BYTES <= Offset(t, HeaderPages(cfg, t))
    requires HoldsHeader(cfg, t, HeaderSource(h, junk), mem)
    requires h.cookie == cfg.magic && h.version == VERSION_1
    requires NoNul(name) && 0 < |name| && h.fileNameLength as nat == |name|
    requires HoldsName(t, NameStart(cfg, t), name, NameBlocks(|name|, t), mem)
    requires OpOk(f, ReadAuthOp(cfg, t)) && AllOk(f, HeaderReadPlan(cfg, t))
    requires AllOk(f, NameReadPlan(t, NameStart(cfg, t), NameReadCount(|name|, NameChunk(|name|, t))))
    ensures var r := ReadCard(cfg, t, f, mem, residue);
      && r.status == Accepted
      && r.name == name
      && r.metadata == Metadata(h.volume, h.resumable)
  {
    HeldHeaderDecodes(cfg, t, h, junk, mem, residue);
    ReadCountWithinBlocks(|name|, t);
    HeldNameReadsBack(mem, t, NameStart(cfg, t), name);
    ReadCardAccepts(cfg, t, f, mem, residue);
  }

  /** A 50-byte filename written from block 4 of a Classic card occupies
      blocks 4, 5, 6 and 7, and block 7 is the trailer of sector 1. */
  lemma TrailerWritten(t: PiccType, name: seq<byte>)
    requires IsClassic(t) && |name| == 50
    ensures var w := WritesOf(NameWritePlan(t, StartCursor(4, t), name, NameBlocks(50, t)));
      |w| == 4 && w[3].block == 7 && IsTrailer(7)
  {
    var c0 := StartCursor(4, t);
    assert NameBlocks(50, t) == 4;
    assert Address(c0, true) == 4;
    NameWritePlanWrites(t, c0, name, 4);
  }

  /** The read loop for a 50-byte filename from block 4 of a Classic card
      reads blocks 4, 5, 6 and 8, so the round trip fails there. */
  lemma TrailerSkipped(t: PiccType)
    requires IsClassic(t)
    ensures BlocksRead(NameReadPlan(t, 4, NameReadCount(50, NameChunk(50, t)))) == [4, 5, 6, 8]
  {
    assert NameReadCount(50, NameChunk(50, t)) == 4;
    NameReadPlanBlocks(t, 4, 4);
    NameBlocksFrom4();
  }

  /** The filename writes the read path can read back: write `k` goes to
      the `k`-th block of the read cursor, which steps over Classic
      trailers. */
  function SkippingNameWrites(t: PiccType, start: byte, name: seq<byte>, n: nat): (ops: seq<Op>)
    ensures |ops| == n
  {
    seq(n, (k: nat) => Write(NameBlock(start, k, IsClassic(t)), NameFrame(name, t, k)))
  }

  /** Writing block by block along the read cursor puts chunk `k` of the
      name exactly where the read loop looks for it in iteration `k`, and
      on Classic cards never onto a sector trailer. */
  lemma SkippingNameWritesMatchReads(t: PiccType, start: byte, name: seq<byte>, n: nat)
    requires IsClassic(t) ==> !IsTrailer(start as int)
    ensures var w := SkippingNameWrites(t, start, name, n);
      var r := BlocksRead(NameReadPlan(t, start, n));
      && WritesOf(w) == w && |r| == n
      && (forall k :: 0 <= k < n ==> w[k].block == r[k] && w[k].data == NameFrame(name, t, k))
      && (IsClassic(t) ==> forall k :: 0 <= k < n ==> !IsTrailer(w[k].block as int))
  {
    var w := SkippingNameWrites(t, start, name, n);
    NameReadPlanBlocks(t, start, n);
    WritesOfWrites(w);
    if IsClassic(t) {
      forall k | 0 <= k < n
        ensures !IsTrailer(w[k].block as int)
      {
        NameBlockNotTrailer(start, k);
      }
    }
  }

  /** Clear of the end of the 8-bit block range, the corrected writes
      leave every block the read loop visits holding its frame. */
  lemma SkippingNameWritesHold(t: PiccType, start: byte, name: seq<byte>, n: nat, mem: Memory)
    requires start as int + 2 * n <= 256
    ensures HoldsName(t, start, name, n, ApplyWrites(mem, t, SkippingNameWrites(t, start, name, n)))
  {
    var w := SkippingNameWrites(t, start, name, n);
    forall k | 0 <= k < n
      ensures Stored(ApplyWrites(mem, t, w), t, NameBlock(start, k, IsClassic(t)))
              == NameFrame(name, t, k)[..NativeSize(t)]
    {
      forall j | k < j < n
        ensures !Touches(w[j], w[k].block)
      {
        NameBlocksDistinct(start, k, j, IsClassic(t));
      }
      ApplyWritesLast(mem, t, w, k);
    }
  }

  /** A NUL-free, non-empty filename written with the corrected writes is
      read back unchanged, whatever trailers lie among its blocks. */
  lemma SkippingNameWritesReadBack(t: PiccType, start: byte, name: seq<byte>, mem: Memory)
    requires Supported(t) && NoNul(name) && |name| > 0
    requires start as int + 2 * NameBlocks(|name|, t) <= 256
    ensures var m := ApplyWrites(mem, t, SkippingNameWrites(t, start, name, NameBlocks(|name|, t)));
      var chunk := NameChunk(|name|, t);
      NameText(m, t, start, chunk, NameReadCount(|name|, chunk)) == name
  {
    var m := ApplyWrites(mem, t, SkippingNameWrites(t, start, name, NameBlocks(|name|, t)));
    SkippingNameWritesHold(t, start, name, NameBlocks(|name|, t), mem);
    ReadCountWithinBlocks(|name|, t);
    HeldNameReadsBack(m, t, start, name);
  }

  /** From block 4 the Classic read cursor visits 4, 5, 6 and then 8,
      stepping over the trailer 7. */
  lemma NameBlocksFrom4()
    ensures NameBlock(4, 0, true) == 4 && NameBlock(4, 1, true) == 5
    ensures NameBlock(4, 2, true) == 6 && NameBlock(4, 3, true) == 8
  {
    assert NameBlock(4, 1, true) == 5;
    assert NameBlock(4, 2, true) == 6;
  }
}
