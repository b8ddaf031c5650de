/** The on-card information block ("header"): its fields, the build
    constants that place it on the card, and an explicit byte encoding that
    replaces the source's `Raw`/`Entry` union. */
module Layout {
  import opened Bytes

  /** Bytes occupied by the header fields: cookie (4), version, volume,
      configuration flags, filename length (1 each). */
  const HEADER_BYTES: nat := 8

  /** The only format version the reader understands. */
  const VERSION_1: byte := 1

  /** `CardDataBlock_s.Entry`: the header and the metadata. The filename
      length is an 8-bit count. */
  datatype Header = Header(
    cookie: uint32,
    version: byte,
    volume: byte,
    resumable: bool,
    full: bool,
    fileNameLength: byte)

  /** The constants of the build that the card handler was compiled with:
      `sizeof(Entry)`, `sizeof(Raw)`, `INFORMATION_BLOCK_SIZE`,
      `INFORMATION_BLOCK__MAGIC_KEY`, and the first block of the information
      block and of the filename for Classic and Ultralight cards. */
  datatype Config = Config(
    entrySize: nat,
    rawSize: nat,
    infoSize: nat,
    magic: uint32,
    infoBlockClassic: byte,
    infoBlockUltralight: byte,
    nameBlockClassic: byte,
    nameBlockUltralight: byte)
  {
    /** The structure holds every header field. */
    predicate Valid()
    {
      HEADER_BYTES <= entrySize
    }

    /** The run-time size checks of both transfer paths pass. */
    predicate SizesAgree()
    {
      entrySize == rawSize && rawSize == infoSize
    }
  }

  /** The packed `Configuration` bit-field: bit 0 `Resumeable`, bit 1 `Full`. */
  function ConfigurationByte(resumable: bool, full: bool): byte
  {
    (if resumable then 1 else 0) + (if full then 2 else 0)
  }

  /** The `Entry` fields as they lie in the first HEADER_BYTES bytes of
      `Raw`: the cookie little-endian, then version, volume, the
      configuration bit-field and the filename length. */
  function Encode(h: Header): (raw: seq<byte>)
    ensures |raw| == HEADER_BYTES
    ensures raw[..4] == Uint32Bytes(h.cookie)
    ensures raw[4] == h.version && raw[5] == h.volume
    ensures raw[6] == ConfigurationByte(h.resumable, h.full) && raw[7] == h.fileNameLength
  {
    Uint32Bytes(h.cookie) + [h.version, h.volume, ConfigurationByte(h.resumable, h.full), h.fileNameLength]
  }

  /** The `Entry` view of a `Raw` byte array. Every byte string whose
      configuration byte uses only the two flag bits is the encoding of the
      header it decodes to. */
  function Decode(raw: seq<byte>): (h: Header)
    requires HEADER_BYTES <= |raw|
    ensures raw[6] < 4 ==> Encode(h) == raw[..HEADER_BYTES]
  {
    Uint32BytesOf(raw[..4]);
    Header(Uint32FromBytes(raw[..4]), raw[4], raw[5],
           raw[6] % 2 == 1, raw[6] / 2 % 2 == 1, raw[7])
  }

  /** Reading back the bytes of a header gives the header. */
  lemma DecodeEncode(h: Header)
    ensures Decode(Encode(h)) == h
  {
    var raw := Encode(h);
    assert raw[..4] == Uint32Bytes(h.cookie);
    Uint32RoundTrip(h.cookie);
  }

  /** Only the first HEADER_BYTES bytes of the raw block decide the header. */
  lemma DecodeDependsOnFields(a: seq<byte>, b: seq<byte>)
    requires HEADER_BYTES <= |a| && HEADER_BYTES <= |b|
    requires a[..HEADER_BYTES] == b[..HEADER_BYTES]
    ensures Decode(a) == Decode(b)
  {
    assert a[..4] == a[..HEADER_BYTES][..4];
    assert b[..4] == b[..HEADER_BYTES][..4];
    assert forall i :: 4 <= i < HEADER_BYTES ==> a[i] == a[..HEADER_BYTES][i];
  }

  /** The header the write path builds: magic cookie, version 1, `Full`
      cleared, and the filename length stored into the 8-bit field (so it is
      kept modulo 256). */
  function WrittenHeader(cfg: Config, volume: byte, resumable: bool, nameLength: nat): Header
  {
    Header(cfg.magic, VERSION_1, volume, resumable, false, (nameLength % 256) as byte)
  }

  /** The write path's `FileNameLength > 256` guard, applied to the stored
      field. */
  predicate NameTooLong(h: Header)
  {
    h.fileNameLength as int > 256
  }

  /** The encoded written header decodes to a header the read path accepts,
      carrying the volume, the resumable flag and the length modulo 256. */
  lemma WrittenHeaderDecodes(cfg: Config, volume: byte, resumable: bool, nameLength: nat)
    ensures var h := Decode(Encode(WrittenHeader(cfg, volume, resumable, nameLength)));
      && h.cookie == cfg.magic && h.version == VERSION_1
      && h.volume == volume && h.resumable == resumable && !h.full
      && h.fileNameLength as int == nameLength % 256
  {
    DecodeEncode(WrittenHeader(cfg, volume, resumable, nameLength));
  }

  /** Because the length is stored in 8 bits before it is checked, the
      `> 256` guard never rejects anything. */
  lemma NameLimitNeverRejects(cfg: Config, volume: byte, resumable: bool, nameLength: nat)
    ensures !NameTooLong(WrittenHeader(cfg, volume, resumable, nameLength))
  {
  }

  /** The guard the limit evidently means, applied to the filename's own
      length before it is stored: at most 255 bytes. */
  predicate NameFits(nameLength: nat)
  {
    nameLength <= 255
  }

  /** The corrected guard accepts exactly the filenames whose length the
      stored header carries unchanged. */
  lemma NameFitsKeepsLength(cfg: Config, volume: byte, resumable: bool, nameLength: nat)
    ensures NameFits(nameLength)
        <==> WrittenHeader(cfg, volume, resumable, nameLength).fileNameLength as int == nameLength
  {
  }
}
