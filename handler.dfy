/** `CardHandler`: the presence and identity checks and the two transfer
    paths, written as the source writes them (retry loop, compare loop,
    block loops with cursors) and proved against the functions of the
    `Presence` and `Transfer` modules. */
module Handler {
  import opened Bytes
  import opened Layout
  import opened Addressing
  import opened Card
  import opened Presence
  import opened Transfer

  /** Bytes in `CardSerialNumber.SerialNumber`: room for the longest UID. */
  const SERIAL_CAPACITY: nat := 10

  /** `CardSerialNumber`: a UID cached by the caller. */
  class CardSerialNumber {
    /** `SerialNumberLength` */
    var length: byte
    /** `SerialNumber` */
    const bytes: array<byte>

    ghost predicate Valid()
      reads this
    {
      bytes.Length == SERIAL_CAPACITY
    }

    /** A zeroed serial number. */
    constructor ()
      ensures Valid() && fresh(bytes) && length == 0
      ensures bytes[..] == Zeros(SERIAL_CAPACITY)
    {
      length := 0;
      bytes := new byte[SERIAL_CAPACITY](_ => 0);
    }
  }

  /** `CardData`: the record an application reads from or writes to a card. */
  class CardData {
    /** `m_valid` */
    var valid: bool
    /** `m_Resumeable` */
    var resumable: bool
    /** `m_Volume` */
    var volume: byte
    /** `m_fileName`, an Arduino `String`, as its bytes. */
    var fileName: seq<byte>
  }

  class CardHandler {
    /** `m_pRfReader`; null when the build wires no reader. */
    const reader: Reader?
    /** The constants of `cardHandler.h` the handler was built with. */
    const cfg: Config
    /** Set when `StopCommunication` runs without a reader: the source then
        dereferences a null pointer. */
    var nullDereference: bool

    ghost predicate Valid()
      reads this, reader
    {
      cfg.Valid() && (reader != null ==> reader.Valid())
    }

    /** `CardHandler(MFRC522 *pCardReader)` */
    constructor (pCardReader: Reader?, cfg: Config)
      requires cfg.Valid() && (pCardReader != null ==> pCardReader.Valid())
      ensures Valid() && reader == pCardReader && this.cfg == cfg && !nullDereference
    {
      reader := pCardReader;
      this.cfg := cfg;
      nullDereference := false;
    }

    /** Whether a new card has entered the field; without a reader the
        answer is always yes. */
    method IsNewCardPresent() returns (result: bool)
      modifies reader
      ensures reader == null ==> result
      ensures reader != null ==>
        && reader.Fixed() == old(reader.Fixed()) && reader.memory == old(reader.memory)
        && reader.uid == old(reader.uid) && reader.wakeIndex == old(reader.wakeIndex)
        && reader.serialIndex == old(reader.serialIndex)
        && result == Answer(reader.requests, old(reader.requestIndex))
        && reader.requestIndex == old(reader.requestIndex) + 1
        && reader.log == old(reader.log) + [RequestA]
    {
      result := false;
      if reader != null {
        var ok := reader.RequestA();
        if ok {
          result := true;
        }
      } else {
        result := true;
      }
    }

    /** Whether the card with the cached serial number is still in the
        field: up to `RETRIES` rounds of wake-up, serial read and
        comparison. Without a reader the answer is no. */
    method IsCardPresent(serial: CardSerialNumber) returns (result: bool)
      requires Valid() && serial.Valid()
      modifies reader
      ensures Valid()
      ensures reader == null ==> !result
      ensures reader != null ==>
        && reader.Fixed() == old(reader.Fixed()) && reader.memory == old(reader.memory)
        && reader.requestIndex == old(reader.requestIndex)
      ensures reader != null ==>
        var p := ProbeCard(reader.wakeups, reader.serials, old(reader.wakeIndex), old(reader.serialIndex),
                           old(reader.uid), serial.length as nat, serial.bytes[..]);
        && result == p.found
        && reader.wakeIndex == p.wakeIndex && reader.serialIndex == p.serialIndex
        && reader.uid == p.uid
        && reader.log == old(reader.log) + p.trace
    {
      result := false;
      if reader != null {
        ghost var length := serial.length as nat;
        ghost var cached := serial.bytes[..];
        ghost var start := Start(reader.wakeIndex, reader.serialIndex, reader.uid);
        ghost var p := start;
        var counter := 0;
        while counter < RETRIES
          invariant counter <= RETRIES && Valid() && !result
          invariant reader.Fixed() == old(reader.Fixed()) && reader.memory == old(reader.memory)
          invariant reader.requestIndex == old(reader.requestIndex)
          invariant p == Rounds(reader.wakeups, reader.serials, length, cached, start, counter) && !p.found
          invariant reader.wakeIndex == p.wakeIndex && reader.serialIndex == p.serialIndex
          invariant reader.uid == p.uid && reader.log == old(reader.log) + p.trace
        {
          var uidEqual := Attempt(serial);
          p := Round(reader.wakeups, reader.serials, length, cached, p);
          if uidEqual {
            RoundsStop(reader.wakeups, reader.serials, length, cached, start, counter + 1, RETRIES);
            result := true;
            break;
          }
          counter := counter + 1;
        }
      }
    }

    /** One round of the presence check: wake the card, read its serial
        number and compare it with the cached one. */
    method Attempt(serial: CardSerialNumber) returns (uidEqual: bool)
      requires Valid() && reader != null && serial.Valid()
      modifies reader
      ensures Valid()
      ensures reader.Fixed() == old(reader.Fixed()) && reader.memory == old(reader.memory)
      ensures reader.requestIndex == old(reader.requestIndex)
      ensures
        var woken := Answer(reader.wakeups, old(reader.wakeIndex));
        var a := SerialAt(reader.serials, old(reader.serialIndex));
        && uidEqual == (woken && a.Serial? && SameCard(a.uid, serial.length as nat, serial.bytes[..]))
        && reader.wakeIndex == old(reader.wakeIndex) + 1
        && reader.serialIndex == old(reader.serialIndex) + (if woken then 1 else 0)
        && reader.uid == (if woken && a.Serial? then a.uid else old(reader.uid))
        && reader.log == old(reader.log) + (if woken then [WakeupA, ReadSerial] else [WakeupA])
    {
      uidEqual := false;
      var ok := reader.WakeupA();
      if ok {
        ok := reader.ReadCardSerial();
        if ok {
          uidEqual := SameSerial(serial);
        }
      }
    }

    /** The comparison inside the presence check: the UID the reader holds
        has the cached length and, byte by byte, the cached bytes. */
    method SameSerial(serial: CardSerialNumber) returns (uidEqual: bool)
      requires Valid() && reader != null && serial.Valid()
      ensures uidEqual <==> SameCard(reader.uid, serial.length as nat, serial.bytes[..])
    {
      uidEqual := true;
      if serial.length as nat == |reader.uid| {
        var i := 0;
        while i < serial.length as nat
          invariant i <= serial.length as nat && uidEqual
          invariant forall j :: 0 <= j < i ==> reader.uid[j] == serial.bytes[j]
        {
          if reader.uid[i] != serial.bytes[i] {
            uidEqual := false;
            break;
          }
          i := i + 1;
        }
      } else {
        uidEqual := false;
      }
    }

    /** Read the serial number of the card in the field into `serial`:
        zero the buffer, then copy the UID and its length. */
    method GetCardSerial(serial: CardSerialNumber) returns (result: bool)
      requires Valid() && serial.Valid()
      modifies serial`length, serial.bytes, reader
      ensures Valid()
      ensures reader != null ==>
        && reader.Fixed() == old(reader.Fixed()) && reader.memory == old(reader.memory)
        && reader.requestIndex == old(reader.requestIndex) && reader.wakeIndex == old(reader.wakeIndex)
      ensures reader == null ==> !result && serial.length == old(serial.length) && serial.bytes[..] == old(serial.bytes[..])
      ensures reader != null ==>
        var a := SerialAt(reader.serials, old(reader.serialIndex));
        && result == a.Serial?
        && reader.serialIndex == old(reader.serialIndex) + 1
        && reader.log == old(reader.log) + [ReadSerial]
        && (result ==> reader.uid == a.uid && serial.length as nat == |a.uid|
                       && serial.bytes[..] == PadTo(a.uid, SERIAL_CAPACITY))
        && (!result ==> reader.uid == old(reader.uid) && serial.length == old(serial.length)
                        && serial.bytes[..] == old(serial.bytes[..]))
    {
      result := false;
      if reader != null {
        var ok := reader.ReadCardSerial();
        if ok {
          forall i | 0 <= i < serial.bytes.Length {
            serial.bytes[i] := 0;
          }
          serial.length := |reader.uid| as byte;
          forall i | 0 <= i < serial.length as nat {
            serial.bytes[i] := reader.uid[i];
          }
          result := true;
        }
      }
    }

    /** Read the record stored on the card in the field into `target`:
        check the structure sizes and the card type, authenticate, read the
        information block, check cookie and version, copy the metadata,
        then read the filename block by block. `residue` is what the
        uninitialised `cardDataBlock` held. */
    method ReadCardInformation(target: CardData, residue: seq<byte>) returns (result: bool)
      requires Valid() && |residue| == cfg.rawSize
      modifies target, reader
      ensures Valid()
      ensures reader == null ==>
        && !result && !target.valid && target.volume == old(target.volume)
        && target.resumable == old(target.resumable) && target.fileName == old(target.fileName)
      ensures reader != null ==>
        && reader.Fixed() == old(reader.Fixed()) && reader.memory == old(reader.memory)
        && reader.uid == old(reader.uid) && reader.requestIndex == old(reader.requestIndex)
        && reader.wakeIndex == old(reader.wakeIndex) && reader.serialIndex == old(reader.serialIndex)
      ensures reader != null ==>
        var r := ReadCard(cfg, reader.piccType, reader.faults, reader.memory, residue);
        && result == r.status.Accepted?
        && target.valid == result
        && reader.log == old(reader.log) + r.trace
        && (if r.metadata.Metadata?
            then target.volume == r.metadata.volume && target.resumable == r.metadata.resumable
            else target.volume == old(target.volume) && target.resumable == old(target.resumable))
        && target.fileName == (if result then r.name else old(target.fileName))
    {
      result := false;
      target.valid := false;
      if reader == null {
        return;
      }
      ghost var r := ReadCard(cfg, reader.piccType, reader.faults, reader.memory, residue);
      if cfg.entrySize != cfg.rawSize {
        assert r == ReadReport(Rejected(SizeMismatch), NoMetadata, [], []);
        return;
      }
      if cfg.rawSize != cfg.infoSize {
        assert r == ReadReport(Rejected(SizeMismatch), NoMetadata, [], []);
        return;
      }
      var t := reader.piccType;
      if t != MifareMini && t != Mifare1K && t != Mifare4K && t != MifareUltralight {
        assert r == ReadReport(Rejected(UnsupportedType), NoMetadata, [], []);
        return;
      }
      var ok: bool;
      var blockSize: nat;
      if t == MifareMini || t == Mifare1K || t == Mifare4K {
        blockSize := 16;
        ok := reader.Authenticate(cfg.infoBlockClassic);
      } else {
        blockSize := 4;
        ok := reader.NtagAuthenticate();
      }
      if !ok {
        assert r == ReadReport(Rejected(AuthFailed), NoMetadata, [], [ReadAuthOp(cfg, t)]);
        return;
      }
      ghost var rest := ReadHeader(cfg, t, reader.faults, reader.memory, residue);
      assert r == rest.(trace := [ReadAuthOp(cfg, t)] + rest.trace);
      ghost var log1 := reader.log;
      result := ReadAuthenticated(target, t, blockSize, residue);
      assert log1 == old(reader.log) + [ReadAuthOp(cfg, t)];
      assert reader.log == old(reader.log) + r.trace by {
        AppendAssoc(old(reader.log), [ReadAuthOp(cfg, t)], rest.trace);
      }
    }

    /** `ReadCardInformation` after a successful authentication: read the
        information block, check the cookie and the version, then read
        the version-1 record. */
    method ReadAuthenticated(target: CardData, t: PiccType, blockSize: nat, residue: seq<byte>) returns (result: bool)
      requires reader != null && cfg.Valid() && cfg.SizesAgree() && |residue| == cfg.rawSize
      requires Supported(t) && t == reader.piccType && blockSize == BlockSize(t)
      requires !target.valid
      modifies target, reader`log
      ensures var r := ReadHeader(cfg, t, reader.faults, reader.memory, residue);
        && result == r.status.Accepted?
        && target.valid == result
        && reader.log == old(reader.log) + r.trace
        && (if r.metadata.Metadata?
            then target.volume == r.metadata.volume && target.resumable == r.metadata.resumable
            else target.volume == old(target.volume) && target.resumable == old(target.resumable))
        && target.fileName == (if result then r.name else old(target.fileName))
    {
      result := false;
      ghost var r := ReadHeader(cfg, t, reader.faults, reader.memory, residue);
      ghost var hp := HeaderReadPlan(cfg, t);
      var ok: bool;
      var raw: seq<byte>;
      var pagesNeeded := cfg.infoSize / blockSize;
      ok, raw := ReadInformationBlock(t, blockSize, pagesNeeded, residue);
      if !ok {
        assert r == ReadReport(Rejected(ReadFailed), NoMetadata, [], Executed(reader.faults, hp));
      } else {
        var h := Decode(raw);
        assert reader.log == old(reader.log) + hp by {
          FailIndexAllOk(reader.faults, hp);
        }
        if h.cookie != cfg.magic {
          assert r == ReadReport(Rejected(ForeignCard), NoMetadata, [], hp);
        } else if h.version == VERSION_1 {
          ghost var rest := ReadRecord(cfg, t, reader.faults, reader.memory, h);
          assert r == rest.(trace := hp + rest.trace);
          result := ReadRecordInto(target, t, blockSize, h);
          AppendAssoc(old(reader.log), hp, rest.trace);
        } else {
          assert r == ReadReport(Rejected(UnknownVersion), NoMetadata, [], hp);
        }
      }
    }

    /** The version-1 branch of `ReadCardInformation`: copy the resumable
        flag and the volume, reject an empty filename, read the filename
        and, when every block was read, store it and mark the record
        valid. */
    method ReadRecordInto(target: CardData, t: PiccType, blockSize: nat, h: Header) returns (result: bool)
      requires reader != null && Supported(t) && t == reader.piccType && blockSize == BlockSize(t)
      requires !target.valid
      modifies target, reader`log
      ensures var r := ReadRecord(cfg, t, reader.faults, reader.memory, h);
        && result == r.status.Accepted?
        && target.valid == result
        && reader.log == old(reader.log) + r.trace
        && target.volume == h.volume && target.resumable == h.resumable
        && target.fileName == (if result then r.name else old(target.fileName))
    {
      result := false;
      target.resumable := h.resumable;
      target.volume := h.volume;
      if h.fileNameLength == 0 {
        return;
      }
      var chunk := if (h.fileNameLength as nat) < blockSize then h.fileNameLength as nat else blockSize;
      var ok: bool;
      var name: seq<byte>;
      ok, name := ReadFileName(t, blockSize, h.fileNameLength as nat, chunk);
      if !ok {
        assert !AllOk(reader.faults, NameReadPlan(t, NameStart(cfg, t), NameReadCount(h.fileNameLength as nat, chunk)));
        return;
      }
      target.fileName := name;
      target.valid := true;
      result := true;
    }

    /** The information-block loop of `ReadCardInformation`: read the
        `pagesNeeded` blocks from the first information block and copy
        `cardBlockSize` bytes of each into the structure (`memcpy` at
        `pDataTarget`, which then moves on by `cardBlockSize`), stopping at
        the first read that fails. The structure starts out as `residue`. */
    method ReadInformationBlock(t: PiccType, blockSize: nat, pagesNeeded: nat, residue: seq<byte>)
      returns (ok: bool, raw: seq<byte>)
      requires reader != null && cfg.SizesAgree() && Supported(t) && t == reader.piccType
      requires blockSize == BlockSize(t) && pagesNeeded == HeaderPages(cfg, t) && |residue| == cfg.rawSize
      modifies reader`log
      ensures var hp := HeaderReadPlan(cfg, t);
        && ok == AllOk(reader.faults, hp)
        && reader.log == old(reader.log) + Executed(reader.faults, hp)
        && (ok ==> raw == HeaderRaw(cfg, t, reader.memory, residue))
    {
      ghost var log0 := reader.log;
      raw := residue;
      var copied: seq<byte> := [];
      var start := InfoStart(cfg, t);
      var pDataTarget: nat := 0;
      ghost var k: nat := 0;
      ghost var trace: seq<Op> := [];
      var block: nat := start as nat;
      HeaderLoopStart(cfg, reader.memory, reader.faults, t);
      while block < start as nat + pagesNeeded
        invariant block == start as nat + k && k <= pagesNeeded
        invariant reader.log == log0 + trace
        invariant HeaderLoopAt(cfg, reader.memory, reader.faults, t, k, pDataTarget, copied, trace)
      {
        ok, copied, trace := ReadInformationPage(t, blockSize, log0, k, trace, block, pDataTarget, copied);
        if !ok {
          return;
        }
        pDataTarget := pDataTarget + blockSize;
        k := k + 1;
        block := block + 1;
      }
      HeaderLoopDone(cfg, reader.memory, reader.faults, t, residue, k, pDataTarget, copied, trace);
      raw := copied + residue[pDataTarget..];
      ok := true;
    }

    /** One iteration of the information-block loop: read `block`
        (truncated to the 8-bit block address); on success copy
        `blockSize` bytes of it to offset `p`. */
    method ReadInformationPage(t: PiccType, blockSize: nat, ghost log0: seq<Op>,
                               ghost k: nat, ghost trace: seq<Op>, block: nat, p: nat, copied: seq<byte>)
      returns (ok: bool, copied': seq<byte>, ghost trace': seq<Op>)
      requires reader != null && cfg.SizesAgree() && Supported(t) && t == reader.piccType
      requires blockSize == BlockSize(t) && block == InfoStart(cfg, t) as nat + k && k < HeaderPages(cfg, t)
      requires reader.log == log0 + trace
      requires HeaderLoopAt(cfg, reader.memory, reader.faults, t, k, p, copied, trace)
      modifies reader`log
      ensures ok ==>
        && reader.log == log0 + trace'
        && HeaderLoopAt(cfg, reader.memory, reader.faults, t, k + 1, p + blockSize, copied', trace')
      ensures var hp := HeaderReadPlan(cfg, t);
        !ok ==> !AllOk(reader.faults, hp) && reader.log == log0 + Executed(reader.faults, hp)
    {
      ghost var page := PageAfter(InfoStart(cfg, t), k);
      assert (block % 256) as byte == page;
      HeaderPageFits(cfg, t, k, p);
      var data: seq<byte>;
      ok, data := reader.Read((block % 256) as byte);
      trace' := trace + [Read(page)];
      AppendAssoc(log0, trace, [Read(page)]);
      copied' := copied;
      if !ok {
        HeaderLoopFail(cfg, reader.memory, reader.faults, t, k, p, copied, trace);
        return;
      }
      HeaderLoopNext(cfg, reader.memory, reader.faults, t, k, p, copied, trace, data[..blockSize]);
      copied' := copied + data[..blockSize];
    }

    /** The filename loop of `ReadCardInformation`: from the first filename
        block, authenticate on Classic cards whenever the key block
        changes, read the block, append up to `chunk` bytes of it (stopping
        at a NUL), and advance the 8-bit block counter past trailers, until
        `chunk` has been added to the position often enough to reach the
        filename length. */
    method ReadFileName(t: PiccType, blockSize: nat, len: nat, chunk: nat) returns (ok: bool, name: seq<byte>)
      requires reader != null && Supported(t) && t == reader.piccType && blockSize == BlockSize(t)
      requires 0 < len < 256 && chunk == NameChunk(len, t)
      modifies reader`log
      ensures var np := NameReadPlan(t, NameStart(cfg, t), NameReadCount(len, chunk));
        && ok == AllOk(reader.faults, np)
        && reader.log == old(reader.log) + Executed(reader.faults, np)
        && (ok ==> name == NameText(reader.memory, t, NameStart(cfg, t), chunk, NameReadCount(len, chunk)))
    {
      ghost var log0 := reader.log;
      var start := NameStart(cfg, t);
      ghost var n := NameReadCount(len, chunk);
      var startBlockNumber := start;
      var activeKeyBlock: byte := 0;
      var position: nat := 0;
      ghost var k: nat := 0;
      ghost var trace: seq<Op> := [];
      name := [];
      NameLoopStart(reader.memory, reader.faults, t, start, chunk, n);
      while position < len
        invariant position == ChunkPosition(k, chunk) && k <= n
        invariant reader.log == log0 + trace
        invariant NameLoopAt(reader.memory, reader.faults, t, start, chunk, n, k, startBlockNumber, activeKeyBlock, name, trace)
        decreases n - k
      {
        ChunksBeforeEnd(len, chunk, k);
        var block', activeKeyBlock', name';
        ghost var trace';
        ok, block', activeKeyBlock', name', trace' :=
          ReadNameStep(t, chunk, start, n, k, log0, trace, startBlockNumber, activeKeyBlock, name);
        if !ok {
          break;
        }
        startBlockNumber, activeKeyBlock, name, trace := block', activeKeyBlock', name', trace';
        position := position + chunk;
        k := k + 1;
      }
      if position >= len {
        ChunksBeforeEnd(len, chunk, k);
        NameLoopDone(reader.memory, reader.faults, t, start, chunk, n, k, startBlockNumber, activeKeyBlock, name, trace);
        ok := true;
      }
    }

    /** One iteration of the filename loop, as a step from where the loop
        stands after `k` iterations to where it stands after `k + 1`, or to
        the end of the filename phase when an operation fails. */
    method ReadNameStep(t: PiccType, chunk: nat, ghost start: byte, ghost n: nat, ghost k: nat,
                        ghost log0: seq<Op>, ghost trace: seq<Op>, block: byte, activeKeyBlock: byte, name: seq<byte>)
      returns (ok: bool, block': byte, activeKeyBlock': byte, name': seq<byte>, ghost trace': seq<Op>)
      requires reader != null && t == reader.piccType && Supported(t) && k < n
      requires reader.log == log0 + trace
      requires NameLoopAt(reader.memory, reader.faults, t, start, chunk, n, k, block, activeKeyBlock, name, trace)
      modifies reader`log
      ensures ok ==>
        && reader.log == log0 + trace'
        && NameLoopAt(reader.memory, reader.faults, t, start, chunk, n, k + 1, block', activeKeyBlock', name', trace')
      ensures var np := NameReadPlan(t, start, n);
        !ok ==> !AllOk(reader.faults, np) && reader.log == log0 + Executed(reader.faults, np)
    {
      ghost var f := reader.faults;
      ghost var ops := NameStepOps(t, block, activeKeyBlock);
      ok, block', activeKeyBlock', name' := ReadNameBlock(t, chunk, block, activeKeyBlock, name);
      AppendAssoc(log0, trace, Executed(f, ops));
      if !ok {
        NameLoopFail(reader.memory, f, t, start, chunk, n, k, block, activeKeyBlock, name, trace);
        trace' := trace;
        return;
      }
      FailIndexAllOk(f, ops);
      NameLoopNext(reader.memory, f, t, start, chunk, n, k, block, activeKeyBlock, name, trace,
                   block', activeKeyBlock', name');
      trace' := trace + ops;
    }

    /** One iteration of the filename loop: authenticate if needed, read
        `block`, append up to `chunk` bytes of it (stopping at a NUL), and
        step the 8-bit cursor, past a trailer on Classic cards. */
    method ReadNameBlock(t: PiccType, chunk: nat, block: byte, activeKeyBlock: byte, name: seq<byte>)
      returns (ok: bool, block': byte, activeKeyBlock': byte, name': seq<byte>)
      requires reader != null && t == reader.piccType && Supported(t) && chunk <= FRAME
      modifies reader`log
      ensures var ops := NameStepOps(t, block, activeKeyBlock);
        && ok == AllOk(reader.faults, ops)
        && reader.log == old(reader.log) + Executed(reader.faults, ops)
      ensures ok ==>
        && block' == NextNameBlock(block, IsClassic(t))
        && activeKeyBlock' == (if IsClassic(t) then KeyBlock(block) else activeKeyBlock)
        && name' == name + UntilNul(ReadImage(reader.memory, t, block)[..chunk])
    {
      NameStepOpsRun(reader.faults, t, block, activeKeyBlock);
      ok, activeKeyBlock' := AuthenticateNameSector(t, block, activeKeyBlock);
      block', name' := block, name;
      if !ok {
        return;
      }
      ghost var log1 := reader.log;
      var data: seq<byte>;
      ok, data := reader.Read(block);
      AppendAssoc(old(reader.log), NameAuthOps(t, block, activeKeyBlock), [Read(block)]);
      if !ok {
        return;
      }
      name' := name + UntilNul(data[..chunk]);
      block' := NextNameCursor(block, IsClassic(t));
    }

    /** On a Classic card, key-A authentication of the trailer of `block`'s
        sector unless that is `activeKeyBlock` already, which it then
        becomes. */
    method AuthenticateNameSector(t: PiccType, block: byte, activeKeyBlock: byte)
      returns (ok: bool, activeKeyBlock': byte)
      requires reader != null && t == reader.piccType && Supported(t)
      modifies reader`log
      ensures var auth := NameAuthOps(t, block, activeKeyBlock);
        && ok == AllOk(reader.faults, auth)
        && reader.log == old(reader.log) + auth
        && (ok ==> activeKeyBlock' == if IsClassic(t) then KeyBlock(block) else activeKeyBlock)
    {
      ok, activeKeyBlock' := true, activeKeyBlock;
      var classic := t == MifareMini || t == Mifare1K || t == Mifare4K;
      if classic {
        var newKeyBlock := KeyBlock(block);
        if newKeyBlock != activeKeyBlock {
          ok := reader.Authenticate(newKeyBlock);
          AllOkSingle(reader.faults, Authenticate(newKeyBlock));
          activeKeyBlock' := newKeyBlock;
        }
      }
    }

    /** `startBlockNumber++` on the 8-bit counter, then on Classic cards
        once more if that lands on a sector trailer. */
    static method NextNameCursor(block: byte, classic: bool) returns (next: byte)
      ensures next == NextNameBlock(block, classic)
    {
      next := if block == 255 then 0 else block + 1;
      ghost var stepped := next;
      if classic && next > 2 && (next as int - 3) % 4 == 0 {
        next := if next == 255 then 0 else next + 1;
      }
      NameCursorStep(block, classic, stepped, next);
    }

    /** Write `source` to the card whose serial number `serial` caches:
        check the structure sizes, check that this card is still in the
        field, fill in the information block, check the card type,
        authenticate, write the information block and then the filename
        block by block. Whatever happens, finish by halting the card.
        `junk` stands for the bytes of the uninitialised structure after
        the header fields and of the memory after it, as far as the
        information-block loop copies them. */
    method WriteCardInformation(source: CardData, serial: CardSerialNumber, junk: seq<byte>) returns (result: bool)
      requires Valid() && serial.Valid() && cfg.infoSize + FRAME <= HEADER_BYTES + |junk|
      modifies this`nullDereference, reader
      ensures Valid()
      ensures reader == null ==> !result && nullDereference
      ensures reader != null ==>
        && reader.Fixed() == old(reader.Fixed()) && reader.requestIndex == old(reader.requestIndex)
        && nullDereference == old(nullDereference)
      ensures reader != null && !cfg.SizesAgree() ==>
        && !result && reader.memory == old(reader.memory) && reader.uid == old(reader.uid)
        && reader.wakeIndex == old(reader.wakeIndex) && reader.serialIndex == old(reader.serialIndex)
        && reader.log == old(reader.log) + [Halt, StopCrypto]
      ensures reader != null && cfg.SizesAgree() ==>
        var p := ProbeCard(reader.wakeups, reader.serials, old(reader.wakeIndex), old(reader.serialIndex),
                           old(reader.uid), serial.length as nat, serial.bytes[..]);
        var w := WriteCard(cfg, reader.piccType, reader.faults, p.found, source.volume, source.resumable,
                           source.fileName, junk);
        && result == w.ok
        && reader.wakeIndex == p.wakeIndex && reader.serialIndex == p.serialIndex && reader.uid == p.uid
        && reader.log == old(reader.log) + p.trace + w.trace + [Halt, StopCrypto]
        && reader.memory == ApplyWrites(old(reader.memory), reader.piccType, w.written)
    {
      result := false;
      if reader != null {
        result := WriteChecked(source, serial, junk);
      }
      StopCommunication();
    }

    /** `WriteCardInformation` up to the final halt, with a reader: the
        size checks, the presence check and the transfer. */
    method WriteChecked(source: CardData, serial: CardSerialNumber, junk: seq<byte>) returns (result: bool)
      requires Valid() && reader != null && serial.Valid() && cfg.infoSize + FRAME <= HEADER_BYTES + |junk|
      modifies reader
      ensures Valid()
      ensures reader.Fixed() == old(reader.Fixed()) && reader.requestIndex == old(reader.requestIndex)
      ensures !cfg.SizesAgree() ==>
        && !result && reader.memory == old(reader.memory) && reader.uid == old(reader.uid)
        && reader.wakeIndex == old(reader.wakeIndex) && reader.serialIndex == old(reader.serialIndex)
        && reader.log == old(reader.log)
      ensures cfg.SizesAgree() ==>
        var p := ProbeCard(reader.wakeups, reader.serials, old(reader.wakeIndex), old(reader.serialIndex),
                           old(reader.uid), serial.length as nat, serial.bytes[..]);
        var w := WriteCard(cfg, reader.piccType, reader.faults, p.found, source.volume, source.resumable,
                           source.fileName, junk);
        && result == w.ok
        && reader.wakeIndex == p.wakeIndex && reader.serialIndex == p.serialIndex && reader.uid == p.uid
        && reader.log == old(reader.log) + p.trace + w.trace
        && reader.memory == ApplyWrites(old(reader.memory), reader.piccType, w.written)
    {
      result := false;
      if cfg.entrySize != cfg.rawSize {
        return;
      }
      if cfg.rawSize != cfg.infoSize {
        return;
      }
      result := WritePresent(source, serial, junk);
    }

    /** The presence check of `WriteCardInformation`, then the transfer
        if the card answered. */
    method WritePresent(source: CardData, serial: CardSerialNumber, junk: seq<byte>) returns (result: bool)
      requires Valid() && reader != null && serial.Valid() && cfg.infoSize + FRAME <= HEADER_BYTES + |junk|
      requires cfg.SizesAgree()
      modifies reader
      ensures Valid()
      ensures reader.Fixed() == old(reader.Fixed()) && reader.requestIndex == old(reader.requestIndex)
      ensures var p := ProbeCard(reader.wakeups, reader.serials, old(reader.wakeIndex), old(reader.serialIndex),
                                 old(reader.uid), serial.length as nat, serial.bytes[..]);
        var w := WriteCard(cfg, reader.piccType, reader.faults, p.found, source.volume, source.resumable,
                           source.fileName, junk);
        && result == w.ok
        && reader.wakeIndex == p.wakeIndex && reader.serialIndex == p.serialIndex && reader.uid == p.uid
        && reader.log == old(reader.log) + p.trace + w.trace
        && reader.memory == ApplyWrites(old(reader.memory), reader.piccType, w.written)
    {
      var present := IsCardPresent(serial);
      if !present {
        return false;
      }
      result := WriteRecord(source, junk);
    }

    /** The transfer of `WriteCardInformation` once the card is known to
        be present: build the information block, check the card type, then
        authenticate and write. */
    method WriteRecord(source: CardData, junk: seq<byte>) returns (result: bool)
      requires reader != null && cfg.Valid() && cfg.SizesAgree() && cfg.infoSize + FRAME <= HEADER_BYTES + |junk|
      modifies reader`memory, reader`log
      ensures var w := WriteCard(cfg, reader.piccType, reader.faults, true, source.volume, source.resumable,
                                 source.fileName, junk);
        && result == w.ok
        && reader.log == old(reader.log) + w.trace
        && reader.memory == ApplyWrites(old(reader.memory), reader.piccType, w.written)
    {
      var t := reader.piccType;
      if t != MifareMini && t != Mifare1K && t != Mifare4K && t != MifareUltralight {
        assert !Supported(t);
        assert WriteCard(cfg, t, reader.faults, true, source.volume, source.resumable, source.fileName, junk)
            == WriteReport(false, [], []);
        assert reader.log + [] == reader.log;
        return false;
      }
      result := WriteSupported(t, source, junk);
    }

    /** The transfer for a card type that has a layout. */
    method WriteSupported(t: PiccType, source: CardData, junk: seq<byte>) returns (result: bool)
      requires reader != null && cfg.Valid() && cfg.SizesAgree() && cfg.infoSize + FRAME <= HEADER_BYTES + |junk|
      requires Supported(t) && t == reader.piccType
      modifies reader`memory, reader`log
      ensures var w := WriteCard(cfg, t, reader.faults, true, source.volume, source.resumable, source.fileName, junk);
        && result == w.ok
        && reader.log == old(reader.log) + w.trace
        && reader.memory == ApplyWrites(old(reader.memory), t, w.written)
    {
      var h := WrittenHeader(cfg, source.volume, source.resumable, |source.fileName|);
      if h.fileNameLength as int > 256 {
        assert false;
      }
      var buffer := new byte[18](_ => 0);
      WriteCardPhases(cfg, t, reader.faults, source.volume, source.resumable, source.fileName, junk,
                      reader.memory);
      result := WriteTransfer(t, h, source.fileName, junk, buffer);
    }

    /** Authenticate for the information block, then write the
        information block and the filename; each phase runs only after the
        one before succeeded. */
    method WriteTransfer(t: PiccType, h: Header, name: seq<byte>, junk: seq<byte>, buffer: array<byte>)
      returns (ok: bool)
      requires reader != null && cfg.Valid() && cfg.SizesAgree() && cfg.infoSize + FRAME <= HEADER_BYTES + |junk|
      requires Supported(t) && t == reader.piccType
      requires buffer.Length == 18 && forall i :: 0 <= i < 18 ==> buffer[i] == 0
      modifies reader`memory, reader`log, buffer
      ensures var f, a := reader.faults, WriteAuthOp(cfg, t);
        var hw := HeaderWritePlan(cfg, t, HeaderSource(h, junk));
        var nw := NameWritePlan(t, StartCursor(NameStart(cfg, t), t), name, NameBlocks(|name|, t));
        && ok == (OpOk(f, a) && AllOk(f, hw) && AllOk(f, nw))
        && reader.log
           == old(reader.log)
              + ([a] + (if !OpOk(f, a) then [] else if !AllOk(f, hw) then Executed(f, hw) else hw + Executed(f, nw)))
        && reader.memory
           == (if !OpOk(f, a) then old(reader.memory)
               else if !AllOk(f, hw) then ApplyWrites(old(reader.memory), t, Completed(f, hw))
               else ApplyWrites(ApplyWrites(old(reader.memory), t, hw), t, Completed(f, nw)))
    {
      var blockSize, sectorSize, c;
      ok, blockSize, sectorSize, c := AuthenticateInformation(t);
      if !ok {
        assert [WriteAuthOp(cfg, t)] + [] == [WriteAuthOp(cfg, t)];
        return;
      }
      ghost var log1 := reader.log;
      ok := WriteBlocks(t, blockSize, sectorSize, c, h, name, junk, buffer);
      AppendAssoc(old(reader.log), [WriteAuthOp(cfg, t)], reader.log[|log1|..]);
    }

    /** After the authentication: the information block, then, if all of
        it was written, the filename. */
    method WriteBlocks(t: PiccType, blockSize: nat, sectorSize: nat, c: Cursor, h: Header, name: seq<byte>,
                       junk: seq<byte>, buffer: array<byte>) returns (ok: bool)
      requires reader != null && cfg.Valid() && cfg.SizesAgree() && cfg.infoSize + FRAME <= HEADER_BYTES + |junk|
      requires Supported(t) && t == reader.piccType
      requires blockSize == BlockSize(t) && sectorSize == SectorSize(IsClassic(t))
      requires c == StartCursor(InfoStart(cfg, t), t)
      requires buffer.Length == 18 && forall i :: 0 <= i < 18 ==> buffer[i] == 0
      modifies reader`memory, reader`log, buffer
      ensures var f := reader.faults;
        var hw := HeaderWritePlan(cfg, t, HeaderSource(h, junk));
        var nw := NameWritePlan(t, StartCursor(NameStart(cfg, t), t), name, NameBlocks(|name|, t));
        && ok == (AllOk(f, hw) && AllOk(f, nw))
        && reader.log == old(reader.log) + (if !AllOk(f, hw) then Executed(f, hw) else hw + Executed(f, nw))
        && reader.memory
           == (if !AllOk(f, hw) then ApplyWrites(old(reader.memory), t, Completed(f, hw))
               else ApplyWrites(ApplyWrites(old(reader.memory), t, hw), t, Completed(f, nw)))
    {
      ok := WriteInformationBlock(t, blockSize, sectorSize, c, HeaderSource(h, junk), buffer);
      if !ok {
        return;
      }
      ghost var hw := HeaderWritePlan(cfg, t, HeaderSource(h, junk));
      FailIndexAllOk(reader.faults, hw);
      ok := WriteFileName(t, name, buffer);
      AppendAssoc(old(reader.log), hw,
                  Executed(reader.faults, NameWritePlan(t, StartCursor(NameStart(cfg, t), t), name,
                                                        NameBlocks(|name|, t))));
    }

    /** The opening of the transfer: choose the block size, the sector
        size and the cursor of the information block for the card type, and
        authenticate (key A for the information block's sector on Classic
        cards, the NTAG password on Ultralight cards). */
    method AuthenticateInformation(t: PiccType) returns (ok: bool, blockSize: nat, sectorSize: nat, c: Cursor)
      requires reader != null && Supported(t) && t == reader.piccType
      modifies reader`log
      ensures ok == OpOk(reader.faults, WriteAuthOp(cfg, t))
      ensures reader.log == old(reader.log) + [WriteAuthOp(cfg, t)]
      ensures blockSize == BlockSize(t) && sectorSize == SectorSize(IsClassic(t))
      ensures c == StartCursor(InfoStart(cfg, t), t)
    {
      if t == MifareMini || t == Mifare1K || t == Mifare4K {
        blockSize := 16;
        sectorSize := 4;
        c := Cursor(cfg.infoBlockClassic / 4, cfg.infoBlockClassic % 4);
        var key := ((c.sector as int * sectorSize + 3) % 256) as byte;
        SectorKeyBlock(cfg.infoBlockClassic, key);
        ok := reader.Authenticate(key);
      } else {
        blockSize := 4;
        sectorSize := 0x86;
        c := Cursor(0, cfg.infoBlockUltralight);
        ok := reader.NtagAuthenticate();
      }
    }

    /** The information-block loop of `WriteCardInformation`: `neededBlocks`
        times, copy `blockSize` bytes of the source into the buffer, write
        the buffer's 16 bytes at the cursor, advance the source pointer and
        the cursor, stopping at the first write that fails. `neededBlocks`
        is at least 1 on entry, so the source's `do`-`while` runs as this
        `while`. */
    method WriteInformationBlock(t: PiccType, blockSize: nat, sectorSize: nat, c0: Cursor, src: seq<byte>,
                                 buffer: array<byte>) returns (ok: bool)
      requires reader != null && cfg.Valid() && cfg.SizesAgree() && Supported(t) && t == reader.piccType
      requires blockSize == BlockSize(t) && sectorSize == SectorSize(IsClassic(t))
      requires c0 == StartCursor(InfoStart(cfg, t), t) && cfg.infoSize + FRAME <= |src|
      requires buffer.Length == 18 && forall i :: 0 <= i < 18 ==> buffer[i] == 0
      modifies reader`memory, reader`log, buffer
      ensures var hw := HeaderWritePlan(cfg, t, src);
        && ok == AllOk(reader.faults, hw)
        && reader.log == old(reader.log) + Executed(reader.faults, hw)
        && reader.memory == ApplyWrites(old(reader.memory), t, Completed(reader.faults, hw))
    {
      ghost var log0, mem0 := reader.log, reader.memory;
      var neededBlocks := BlocksFor(cfg.infoSize, blockSize);
      var pDataSource: nat := 0;
      var c := c0;
      ghost var k: nat := 0;
      ghost var trace: seq<Op> := [];
      HeaderWriteLoopStart(cfg, reader.faults, t, src, mem0);
      while neededBlocks > 0
        invariant k + neededBlocks == HeaderBlocks(cfg, t)
        invariant forall i :: blockSize <= i < 18 ==> buffer[i] == 0
        invariant reader.log == log0 + trace
        invariant HeaderWriteLoopAt(cfg, reader.faults, t, src, mem0, k, c, pDataSource, trace, reader.memory)
      {
        ok, c, trace := WriteInformationPage(t, blockSize, sectorSize, src, buffer, mem0, log0, k, trace, c, pDataSource);
        if !ok {
          return;
        }
        pDataSource := pDataSource + blockSize;
        neededBlocks := neededBlocks - 1;
        k := k + 1;
      }
      HeaderWriteLoopDone(cfg, reader.faults, t, src, mem0, k, c, pDataSource, trace, reader.memory);
      ok := true;
    }

    /** One iteration of the information-block loop: `memcpy` `blockSize`
        bytes from `p` into the buffer, write its first 16 bytes at the
        cursor (an 8-bit block address), and on success advance the
        cursor. */
    method WriteInformationPage(t: PiccType, blockSize: nat, sectorSize: nat, src: seq<byte>, buffer: array<byte>,
                                ghost mem0: Memory, ghost log0: seq<Op>, ghost k: nat, ghost trace: seq<Op>,
                                c: Cursor, p: nat)
      returns (ok: bool, c': Cursor, ghost trace': seq<Op>)
      requires reader != null && cfg.Valid() && Supported(t) && t == reader.piccType
      requires blockSize == BlockSize(t) && sectorSize == SectorSize(IsClassic(t)) && cfg.infoSize + FRAME <= |src|
      requires buffer.Length == 18 && forall i :: blockSize <= i < 18 ==> buffer[i] == 0
      requires k < HeaderBlocks(cfg, t) && reader.log == log0 + trace
      requires HeaderWriteLoopAt(cfg, reader.faults, t, src, mem0, k, c, p, trace, reader.memory)
      modifies reader`memory, reader`log, buffer
      ensures forall i :: blockSize <= i < 18 ==> buffer[i] == 0
      ensures ok ==>
        && reader.log == log0 + trace'
        && HeaderWriteLoopAt(cfg, reader.faults, t, src, mem0, k + 1, c', p + blockSize, trace', reader.memory)
      ensures var hw := HeaderWritePlan(cfg, t, src);
        !ok ==>
          && !AllOk(reader.faults, hw) && reader.log == log0 + Executed(reader.faults, hw)
          && reader.memory == ApplyWrites(mem0, t, Completed(reader.faults, hw))
    {
      HeaderWriteLoopOp(cfg, reader.faults, t, src, mem0, k, c, p, trace, reader.memory);
      HeaderBlocksCover(cfg, t);
      FillInfoBuffer(buffer, src, p, blockSize);
      ghost var frame := HeaderFrame(src, t, k);
      var block := BlockAddress(c, sectorSize, IsClassic(t));
      ok := reader.Write(block, buffer[..FRAME]);
      AppendAssoc(log0, trace, [Write(block, frame)]);
      c', trace' := c, trace + [Write(block, frame)];
      if !ok {
        HeaderWriteLoopFail(cfg, reader.faults, t, src, mem0, k, c, p, trace, old(reader.memory));
        return;
      }
      HeaderWriteLoopNext(cfg, reader.faults, t, src, mem0, k, c, p, trace, old(reader.memory));
      c' := AdvanceCursor(c, sectorSize, IsClassic(t));
    }

    /** The filename loop of `WriteCardInformation`: from the first
        filename block, `neededBlocks` times (enough blocks for the name
        and its terminating NUL), authenticate on Classic cards when the
        cursor's sector is not `actualAuthentificatedSector`, clear the
        buffer, fetch the next `blockSize` bytes of the name, write the
        buffer at the cursor and advance, stopping at the first operation
        that fails. */
    method WriteFileName(t: PiccType, name: seq<byte>, buffer: array<byte>) returns (ok: bool)
      requires reader != null && Supported(t) && t == reader.piccType && buffer.Length == 18
      modifies reader`memory, reader`log, buffer
      ensures var np := NameWritePlan(t, StartCursor(NameStart(cfg, t), t), name, NameBlocks(|name|, t));
        && ok == AllOk(reader.faults, np)
        && reader.log == old(reader.log) + Executed(reader.faults, np)
        && reader.memory == ApplyWrites(old(reader.memory), t, Completed(reader.faults, np))
    {
      var blockSize: nat;
      var sectorSize: nat;
      var c: Cursor;
      if t == MifareMini || t == Mifare1K || t == Mifare4K {
        blockSize := 16;
        sectorSize := 4;
        c := Cursor(cfg.nameBlockClassic / 4, cfg.nameBlockClassic % 4);
      } else {
        blockSize := 4;
        sectorSize := 0x86;
        c := Cursor(0, cfg.nameBlockUltralight);
      }
      ok := WriteNameBlocks(t, blockSize, sectorSize, c, name, buffer);
    }

    /** The filename loop: `neededBlocks` times, authenticate the cursor's
        sector if it is not the one authenticated last, copy the next
        `blockSize` bytes of the name into the buffer, write the buffer's
        16 bytes at the cursor and advance the cursor, stopping at the
        first operation that fails. */
    method WriteNameBlocks(t: PiccType, blockSize: nat, sectorSize: nat, c0: Cursor, name: seq<byte>,
                           buffer: array<byte>) returns (ok: bool)
      requires reader != null && Supported(t) && t == reader.piccType && buffer.Length == 18
      requires blockSize == BlockSize(t) && sectorSize == SectorSize(IsClassic(t))
      requires c0 == StartCursor(NameStart(cfg, t), t)
      modifies reader`memory, reader`log, buffer
      ensures var np := NameWritePlan(t, c0, name, NameBlocks(|name|, t));
        && ok == AllOk(reader.faults, np)
        && reader.log == old(reader.log) + Executed(reader.faults, np)
        && reader.memory == ApplyWrites(old(reader.memory), t, Completed(reader.faults, np))
    {
      ghost var log0, mem0 := reader.log, reader.memory;
      var c := c0;
      var actualAuthentificatedSector: int := 0;
      var neededBlocks := BlocksFor(|name| + 1, blockSize);
      ghost var n := NameBlocks(|name|, t);
      var position: nat := 0;
      ghost var k: nat := 0;
      ghost var trace: seq<Op> := [];
      NameWriteLoopStart(reader.faults, t, c0, name, n, mem0);
      while neededBlocks > 0
        invariant k + neededBlocks == n
        invariant reader.log == log0 + trace
        invariant NameWriteLoopAt(reader.faults, t, c0, name, n, mem0, k, c, actualAuthentificatedSector,
                                  position, trace, reader.memory)
      {
        ok, c, actualAuthentificatedSector, trace := WriteNameStep(t, blockSize, sectorSize, name, buffer,
          c0, n, mem0, log0, k, trace, c, actualAuthentificatedSector, position);
        if !ok {
          return;
        }
        position := position + blockSize;
        neededBlocks := neededBlocks - 1;
        k := k + 1;
      }
      NameWriteLoopDone(reader.faults, t, c0, name, n, mem0, k, c, actualAuthentificatedSector, position, trace,
                        reader.memory);
      ok := true;
    }

    /** One iteration of the filename loop, as a step from where the loop
        stands after `k` iterations to where it stands after `k + 1`, or to
        the end of the filename phase when an operation fails. */
    method WriteNameStep(t: PiccType, blockSize: nat, sectorSize: nat, name: seq<byte>, buffer: array<byte>,
                         ghost c0: Cursor, ghost n: nat, ghost mem0: Memory, ghost log0: seq<Op>, ghost k: nat,
                         ghost trace: seq<Op>, c: Cursor, held: int, position: nat)
      returns (ok: bool, c': Cursor, held': int, ghost trace': seq<Op>)
      requires reader != null && Supported(t) && t == reader.piccType && buffer.Length == 18
      requires blockSize == BlockSize(t) && sectorSize == SectorSize(IsClassic(t))
      requires k < n && reader.log == log0 + trace
      requires NameWriteLoopAt(reader.faults, t, c0, name, n, mem0, k, c, held, position, trace, reader.memory)
      modifies reader`memory, reader`log, buffer
      ensures ok ==>
        && reader.log == log0 + trace'
        && NameWriteLoopAt(reader.faults, t, c0, name, n, mem0, k + 1, c', held', position + blockSize,
                           trace', reader.memory)
      ensures var np := NameWritePlan(t, c0, name, n);
        !ok ==>
          && !AllOk(reader.faults, np) && reader.log == log0 + Executed(reader.faults, np)
          && reader.memory == ApplyWrites(mem0, t, Completed(reader.faults, np))
    {
      ghost var f, mem := reader.faults, reader.memory;
      c', trace' := c, trace;
      ok, held' := AuthenticateWriteSector(t, sectorSize, c, held);
      if !ok {
        NameAuthFails(f, t, c0, name, n, mem0, log0, k, c, held, position, trace, mem);
        return;
      }
      FillNameBuffer(buffer, name, blockSize, position);
      var block := BlockAddress(c, sectorSize, IsClassic(t));
      assert buffer[..FRAME] == NameFrame(name, t, k);
      ok := reader.Write(block, buffer[..FRAME]);
      if !ok {
        NameBlockWriteFails(f, t, c0, name, n, mem0, log0, k, c, held, position, trace, mem);
        return;
      }
      NameBlockWritten(f, t, c0, name, n, mem0, log0, k, c, held, position, trace, mem);
      trace' := trace + NameWriteAuth(t, c, held) + [Write(block, buffer[..FRAME])];
      c' := AdvanceCursor(c, sectorSize, IsClassic(t));
    }

    /** On a Classic card, key-A authentication of the trailer of the
        cursor's sector unless that sector is `actualAuthentificatedSector`
        already, which it then becomes. */
    method AuthenticateWriteSector(t: PiccType, sectorSize: nat, c: Cursor, held: int) returns (ok: bool, held': int)
      requires reader != null && t == reader.piccType && Supported(t) && sectorSize == SectorSize(IsClassic(t))
      modifies reader`log
      ensures var auth := NameWriteAuth(t, c, held);
        && ok == AllOk(reader.faults, auth)
        && reader.log == old(reader.log) + auth
        && (ok ==> held' == if IsClassic(t) then c.sector as int else held)
    {
      ok, held' := true, held;
      if t == MifareMini || t == Mifare1K || t == Mifare4K {
        if held != c.sector as int {
          var key := ((c.sector as int * sectorSize + (sectorSize - 1)) % 256) as byte;
          ok := reader.Authenticate(key);
          AllOkSingle(reader.faults, Authenticate(key));
          if !ok {
            return;
          }
          held' := c.sector as int;
        }
      }
    }

    /** `neededBlocks`: the blocks of `blockSize` bytes that `size` bytes
        take, a last partial block included. */
    static method BlocksFor(size: nat, blockSize: nat) returns (neededBlocks: nat)
      requires blockSize > 0
      ensures neededBlocks == RoundUpDiv(size, blockSize)
      ensures size > 0 ==> neededBlocks > 0
    {
      neededBlocks := size / blockSize;
      if size % blockSize != 0 {
        neededBlocks := neededBlocks + 1;
      }
      RoundUpDivBounds(size, blockSize);
    }

    /** `memcpy(pBuffer, pDataSource, blockSize)` into a buffer whose bytes
        after the first `blockSize` are zero. */
    static method FillInfoBuffer(buffer: array<byte>, src: seq<byte>, p: nat, blockSize: nat)
      requires buffer.Length == 18 && blockSize <= FRAME && p + blockSize <= |src|
      requires forall i :: blockSize <= i < 18 ==> buffer[i] == 0
      modifies buffer
      ensures forall i :: blockSize <= i < 18 ==> buffer[i] == 0
      ensures buffer[..FRAME] == PadTo(Window(src, p, blockSize), FRAME)
    {
      forall i | 0 <= i < blockSize {
        buffer[i] := src[p + i];
      }
      assert Window(src, p, blockSize) == src[p..p + blockSize];
      PaddedPrefix(buffer[..], src[p..p + blockSize], blockSize, FRAME);
    }

    /** `memset(buffer, 0, sizeof(buffer))`, then `getBytes` of `blockSize`
        bytes from `position` plus the terminating NUL. */
    static method FillNameBuffer(buffer: array<byte>, name: seq<byte>, blockSize: nat, position: nat)
      requires buffer.Length == 18 && 0 < blockSize <= FRAME
      modifies buffer
      ensures buffer[..FRAME] == PadTo(UntilNul(Window(name, position, blockSize)), FRAME)
    {
      forall i | 0 <= i < buffer.Length {
        buffer[i] := 0;
      }
      GetBytes(buffer, name, blockSize + 1, position);
      var w := Window(name, position, blockSize);
      PaddedPrefix(buffer[..], UntilNul(w), |w| + 1, FRAME);
    }

    /** `String::getBytes(buf, bufsize, index)` of the Arduino core: past
        the end of the string only a NUL; otherwise `strncpy` of up to
        `bufsize - 1` bytes from `index` (stopping at a NUL and zero-filling
        the rest), then a NUL after them. */
    static method GetBytes(buf: array<byte>, s: seq<byte>, bufsize: nat, index: nat)
      requires 0 < bufsize <= buf.Length
      modifies buf
      ensures var w := Window(s, index, bufsize - 1);
        && buf[..|w| + 1] == PadTo(UntilNul(w), |w| + 1)
        && buf[|w| + 1..] == old(buf[|w| + 1..])
    {
      if index >= |s| {
        buf[0] := 0;
        return;
      }
      var n := bufsize - 1;
      if n > |s| - index {
        n := |s| - index;
      }
      var w := s[index..index + n];
      assert w == Window(s, index, bufsize - 1);
      StoreTerminated(buf, UntilNul(w), n);
    }

    /** `strncpy(buf, u, n)` followed by `buf[n] = 0`, for a `u` without
        NUL bytes: `u`, then zeros up to and including position `n`. */
    static method StoreTerminated(buf: array<byte>, u: seq<byte>, n: nat)
      requires |u| <= n < buf.Length
      modifies buf
      ensures buf[..n + 1] == PadTo(u, n + 1)
      ensures buf[n + 1..] == old(buf[n + 1..])
    {
      forall i | 0 <= i <= n {
        buf[i] := if i < |u| then u[i] else 0;
      }
      ghost var p := PadTo(u, n + 1);
      assert forall i :: 0 <= i <= n ==> buf[i] == p[i];
    }

    /** `operatingSector * sectorSize + operatingBlock`, passed on as a
        `byte` block number. */
    static method BlockAddress(c: Cursor, sectorSize: nat, ghost classic: bool) returns (block: byte)
      requires sectorSize == SectorSize(classic)
      ensures block == Address(c, classic)
    {
      block := ((c.sector as int * sectorSize + c.block as int) % 256) as byte;
      AddressOf(c, sectorSize, classic);
    }

    /** `operatingBlock++` (8-bit) and, past the last block of the sector,
        block 0 of the next sector (`operatingSector++`, 8-bit). */
    static method AdvanceCursor(c: Cursor, sectorSize: nat, ghost classic: bool) returns (c': Cursor)
      requires sectorSize == SectorSize(classic)
      ensures c' == Advance(c, classic)
    {
      var block := if c.block == 255 then 0 else c.block + 1;
      var sector := c.sector;
      if block as int > sectorSize - 1 {
        block := 0;
        sector := if sector == 255 then 0 else sector + 1;
      }
      c' := Cursor(sector, block);
    }

    /** Halt the card and end the encrypted session; without a reader this
        dereferences a null pointer, which the model flags. */
    method StopCommunication()
      modifies this`nullDereference, reader
      ensures reader == null ==> nullDereference
      ensures reader != null ==>
        && reader.Fixed() == old(reader.Fixed()) && reader.memory == old(reader.memory)
        && reader.uid == old(reader.uid) && reader.requestIndex == old(reader.requestIndex)
        && reader.wakeIndex == old(reader.wakeIndex) && reader.serialIndex == old(reader.serialIndex)
      ensures reader != null ==>
        nullDereference == old(nullDereference) && reader.log == old(reader.log) + [Halt, StopCrypto]
    {
      if reader == null {
        nullDereference := true;
      } else {
        reader.HaltA();
        reader.StopCrypto1();
      }
    }
  }
}
