/** Block addressing on the card: sector trailers, the key block of a
    sector, the read path's filename cursor (a `uint8_t` block number that
    hops over trailers on Classic cards) and the write path's
    (sector, block) cursor (two `uint8_t` counters that carry at the sector
    size). */
module Addressing {
  import opened Bytes

  /** Blocks per sector on MIFARE Classic cards. */
  const CLASSIC_SECTOR_SIZE: nat := 4

  /** The sector size the write path uses for Ultralight cards (0x86). */
  const ULTRALIGHT_SECTOR_SIZE: nat := 0x86

  /** The read path's test for a sector trailer (key block). */
  predicate IsTrailer(b: int)
  {
    b > 2 && (b - 3) % 4 == 0
  }

  /** `(b / 4) * 4 + 3`: the trailer of the sector holding block `b`. */
  function KeyBlock(b: byte): (k: byte)
    ensures IsTrailer(k as int)
    ensures k as int / 4 == b as int / 4
  {
    ((b as int / 4) * 4 + 3) as byte
  }

  /** `operatingSector * 4 + 3` (8-bit), with `operatingSector` the sector
      of block `b`, is the key block of `b`'s sector. */
  lemma SectorKeyBlock(b: byte, key: byte)
    requires key as int == ((b / 4) as int * 4 + 3) % 256
    ensures key == KeyBlock(b)
  {
  }

  // ---------------------------------------------------------------------
  // Read path: the filename cursor `startBlockNumber`
  // ---------------------------------------------------------------------

  /** One advance of the read cursor: `startBlockNumber++` (an 8-bit
      counter) and, on Classic cards, a second increment when the new block
      is a trailer. */
  function NextNameBlock(b: byte, classic: bool): (r: byte)
    ensures classic ==> !IsTrailer(r as int)
    ensures !classic ==> r as int == (b as int + 1) % 256
    ensures !IsTrailer((b as int + 1) % 256) ==> r as int == (b as int + 1) % 256
  {
    var n := (b as int + 1) % 256;
    if classic && IsTrailer(n) then ((n + 1) % 256) as byte else n as byte
  }

  /** The read loop's cursor update (8-bit increment, then one more past
      a Classic trailer) computes `NextNameBlock`. */
  lemma NameCursorStep(b: byte, classic: bool, n: byte, r: byte)
    requires n == if b == 255 then 0 else b + 1
    requires r == if classic && n > 2 && (n as int - 3) % 4 == 0 then (if n == 255 then 0 else n + 1) else n
    ensures r == NextNameBlock(b, classic)
  {
  }

  /** The block the read loop reads in its iteration `k`. */
  function NameBlock(start: byte, k: nat, classic: bool): byte
  {
    if k == 0 then start else NextNameBlock(NameBlock(start, k - 1, classic), classic)
  }

  /** On Classic cards the read cursor never rests on a sector trailer,
      apart from a start block that is one. */
  lemma {:induction false} NameBlockNotTrailer(start: byte, k: nat)
    requires k > 0 || !IsTrailer(start as int)
    ensures !IsTrailer(NameBlock(start, k, true) as int)
  {
  }

  /** Where no trailer lies in the way (or on Ultralight cards, which have
      none) and the 8-bit counter does not wrap, iteration `k` reads block
      `start + k`. */
  lemma {:induction false} NameBlockContiguous(start: byte, k: nat, classic: bool)
    requires start as int + k < 256
    requires classic ==> forall j :: start as int < j <= start as int + k ==> !IsTrailer(j)
    ensures NameBlock(start, k, classic) as int == start as int + k
  {
    if k > 0 {
      NameBlockContiguous(start, k - 1, classic);
      assert classic ==> !IsTrailer(start as int + k);
      NextNameBlockNoWrap(NameBlock(start, k - 1, classic), classic);
    }
  }

  /** Away from the end of the 8-bit range and from a trailer, the read
      cursor moves on by one block. */
  lemma NextNameBlockNoWrap(b: byte, classic: bool)
    requires b < 255 && (classic ==> !IsTrailer(b as int + 1))
    ensures NextNameBlock(b, classic) as int == b as int + 1
  {
    assert (b as int + 1) % 256 == b as int + 1;
  }

  /** While the 8-bit counter stays clear of its end, each advance of the
      read cursor moves it on by one block, or by two past a trailer. */
  lemma {:induction false} NameBlockRises(start: byte, k: nat, classic: bool)
    requires start as int + 2 * k < 256
    ensures start as int + k <= NameBlock(start, k, classic) as int <= start as int + 2 * k
    ensures k > 0 ==> NameBlock(start, k - 1, classic) < NameBlock(start, k, classic)
  {
    if k > 0 {
      NameBlockRises(start, k - 1, classic);
      var b := NameBlock(start, k - 1, classic);
      assert (b as int + 1) % 256 == b as int + 1 && (b as int + 2) % 256 == b as int + 2;
    }
  }

  /** In that range the read cursor never comes back to a block it has
      already visited. */
  lemma {:induction false} NameBlocksDistinct(start: byte, j: nat, k: nat, classic: bool)
    requires j < k && start as int + 2 * k < 256
    ensures NameBlock(start, j, classic) < NameBlock(start, k, classic)
  {
    NameBlockRises(start, k, classic);
    if j < k - 1 {
      NameBlocksDistinct(start, j, k - 1, classic);
    }
  }

  /** On Classic cards an advance of the read cursor enters a new sector
      exactly when it lands on the first block of a sector. */
  lemma NextNameBlockChangesSector(b: byte)
    ensures var r := NextNameBlock(b, true);
      (KeyBlock(r) != KeyBlock(b)) <==> r as int % 4 == 0
  {
    if b as int % 4 < 2 {
      NextNameBlockInSector(b);
    } else {
      NextNameBlockNextSector(b);
    }
  }

  /** From the first two blocks of a sector the cursor moves to the next
      block of the same sector. */
  lemma NextNameBlockInSector(b: byte)
    requires b as int % 4 < 2
    ensures var r := NextNameBlock(b, true);
      r as int == b as int + 1 && KeyBlock(r) == KeyBlock(b) && r as int % 4 != 0
  {
    var q := b as int / 4;
    assert !IsTrailer(b as int + 1);
    KeyBlockIn(b, q);
    KeyBlockIn(b + 1, q);
  }

  /** From the third block or the trailer of a sector the cursor moves to
      the first block of the next sector, wrapping from the last sector to
      block 0. */
  lemma NextNameBlockNextSector(b: byte)
    requires b as int % 4 >= 2
    ensures var r := NextNameBlock(b, true);
      KeyBlock(r) != KeyBlock(b) && r as int % 4 == 0
  {
    var r := NextNameBlock(b, true);
    var q, m := b as int / 4, b as int % 4;
    KeyBlockIn(b, q);
    if b as int >= 254 {
      assert r == 0;
      KeyBlockIn(r, 0);
    } else {
      NextSectorStart(b, q, m);
      KeyBlockIn(r, q + 1);
    }
  }

  /** Below the end of the 8-bit range, the cursor moves from the third
      block or the trailer of sector `q` to block `4 (q + 1)`. */
  lemma NextSectorStart(b: byte, q: int, m: int)
    requires b as int == 4 * q + m && 2 <= m < 4 && b as int < 254
    ensures NextNameBlock(b, true) as int == 4 * (q + 1)
  {
    var n := b as int + 1;
    if m == 2 {
      assert n - 3 == 4 * q;
      assert IsTrailer(n);
    } else {
      assert n - 3 == 4 * q + 1;
      assert !IsTrailer(n);
    }
  }

  /** The key block of a block in sector `q` is block `4 q + 3`. */
  lemma KeyBlockIn(b: byte, q: int)
    requires 4 * q <= b as int < 4 * q + 4
    ensures KeyBlock(b) as int == 4 * q + 3
  {
    assert b as int / 4 == q;
  }

  // ---------------------------------------------------------------------
  // Write path: the (operatingSector, operatingBlock) cursor
  // ---------------------------------------------------------------------

  /** `operatingSector` and `operatingBlock`, both `uint8_t`. */
  datatype Cursor = Cursor(sector: byte, block: byte)

  /** `sectorSize` of the write path: 4 on Classic cards, 0x86 on
      Ultralight cards. */
  function SectorSize(classic: bool): nat
  {
    if classic then CLASSIC_SECTOR_SIZE else ULTRALIGHT_SECTOR_SIZE
  }

  /** `operatingBlock++`, and on passing the last block of a sector, back to
      block 0 of the next sector (`operatingSector++`, 8-bit). From a block
      inside the sector the cursor stays inside the sector, and it enters a
      new sector on exactly those advances that bring its block back to 0. */
  function Advance(c: Cursor, classic: bool): (r: Cursor)
    ensures c.block as nat < SectorSize(classic) ==>
      && r.block as nat < SectorSize(classic)
      && (r.sector != c.sector <==> r.block == 0)
  {
    var b := (c.block as int + 1) % 256;
    if b > SectorSize(classic) - 1 then Cursor(((c.sector as int + 1) % 256) as byte, 0)
    else Cursor(c.sector, b as byte)
  }

  /** The cursor before the write of block `k` of a loop starting at `c0`. */
  function CursorAt(c0: Cursor, classic: bool, k: nat): Cursor
  {
    if k == 0 then c0 else Advance(CursorAt(c0, classic, k - 1), classic)
  }

  /** `operatingSector * sectorSize + operatingBlock`, in unbounded
      arithmetic. */
  function Linear(c: Cursor, classic: bool): nat
  {
    if classic then c.sector as nat * 4 + c.block as nat
    else c.sector as nat * 0x86 + c.block as nat
  }

  /** The block number handed to `MIFARE_Write` (a `byte` parameter). */
  function Address(c: Cursor, classic: bool): byte
  {
    (Linear(c, classic) % 256) as byte
  }

  /** `operatingSector * sectorSize + operatingBlock`, computed with the
      sector size of the card and handed over as an 8-bit block address,
      is `Address`. */
  lemma AddressOf(c: Cursor, sectorSize: nat, classic: bool)
    requires sectorSize == SectorSize(classic)
    ensures ((c.sector as int * sectorSize + c.block as int) % 256) as byte == Address(c, classic)
  {
  }

  /** Each advance moves the cursor's linear position forward by exactly
      one (modulo the 256 sectors an 8-bit sector counter can name) and
      keeps the block inside the sector. */
  lemma AdvanceLinear(c: Cursor, classic: bool)
    requires c.block as nat < SectorSize(classic)
    ensures Advance(c, classic).block as nat < SectorSize(classic)
    ensures Linear(Advance(c, classic), classic)
         == (Linear(c, classic) + 1) % (256 * SectorSize(classic))
  {
  }

  lemma ModOfMultiple(a: nat, classic: bool)
    ensures (a % (256 * SectorSize(classic))) % 256 == a % 256
  {
    var m := SectorSize(classic);
    var q, r := a / (256 * m), a % (256 * m);
    assert a == 256 * (m * q) + r;
  }

  /** The block number written in iteration `k` is the start block plus
      `k` (modulo 256), and the block stays inside the sector throughout. */
  lemma {:induction false} CursorAtAddress(c0: Cursor, classic: bool, k: nat)
    requires c0.block as nat < SectorSize(classic)
    ensures CursorAt(c0, classic, k).block as nat < SectorSize(classic)
    ensures Address(CursorAt(c0, classic, k), classic) as int
         == (Address(c0, classic) as int + k) % 256
  {
    if k > 0 {
      var prev := CursorAt(c0, classic, k - 1);
      CursorAtAddress(c0, classic, k - 1);
      AdvanceLinear(prev, classic);
      var l := Linear(prev, classic);
      ModOfMultiple(l + 1, classic);
      assert Address(Advance(prev, classic), classic) as int == (l + 1) % 256;
      ModAddOne(l);
      ModAddOne(Address(c0, classic) as int + k - 1);
    }
  }

  lemma ModAddOne(x: int)
    ensures (x % 256 + 1) % 256 == (x + 1) % 256
  {
  }

  lemma AdvanceBlock(c: Cursor, classic: bool)
    requires c.block as nat < SectorSize(classic)
    ensures Advance(c, classic).block as nat == (c.block as nat + 1) % SectorSize(classic)
  {
  }

  lemma ModStep(x: nat, classic: bool)
    ensures (x % SectorSize(classic) + 1) % SectorSize(classic) == (x + 1) % SectorSize(classic)
  {
    if classic {
      ModStep4(x);
    } else {
      ModStep86(x);
    }
  }

  lemma ModStep4(x: nat)
    ensures (x % 4 + 1) % 4 == (x + 1) % 4
  {
    var q, r := x / 4, x % 4;
    assert x == 4 * q + r;
    if r < 3 {
      assert x + 1 == 4 * q + (r + 1);
    } else {
      assert x + 1 == 4 * (q + 1);
    }
  }

  lemma ModStep86(x: nat)
    ensures (x % 0x86 + 1) % 0x86 == (x + 1) % 0x86
  {
    var q, r := x / 0x86, x % 0x86;
    assert x == 0x86 * q + r;
    if r < 0x85 {
      assert x + 1 == 0x86 * q + (r + 1);
    } else {
      assert x + 1 == 0x86 * (q + 1);
    }
  }

  /** The block part of the cursor counts modulo the sector size. */
  lemma {:induction false} CursorAtBlock(c0: Cursor, classic: bool, k: nat)
    requires c0.block as nat < SectorSize(classic)
    ensures CursorAt(c0, classic, k).block as nat == (c0.block as nat + k) % SectorSize(classic)
  {
    if k > 0 {
      CursorAtBlock(c0, classic, k - 1);
      CursorAtAddress(c0, classic, k - 1);
      AdvanceBlock(CursorAt(c0, classic, k - 1), classic);
      ModStep(c0.block as nat + k - 1, classic);
    }
  }
}
