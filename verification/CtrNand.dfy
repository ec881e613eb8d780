/** The encrypted NAND: aes_advctr, the CTR mode of aes, ctrNandRead and ctrNandWrite
    (section 6.5 of NIST SP 800-38A). The block cipher is any function of the counter block. */
module CtrNand {
  import opened Words
  import opened FatLayout
  import Arith

  const TWO128: int := 0x1_0000_0000_0000_0000_0000_0000_0000_0000
  const BLOCK: nat := 16             // AES_BLOCK_SIZE
  const SECTOR_BLOCKS: nat := 32     // blocks in a sector
  const WINDOW: nat := 0x80_0000     // 2^23 sectors: where the 32-bit byte offset wraps around

  type Octets = seq<bv8>
  type Cipher = e: nat -> Octets | forall c :: |e(c)| == BLOCK witness (c => seq(BLOCK, _ => 0))

  // ------------------------------------------------------------------------------------------
  // The counter

  /** BSWAP32 */
  function Bswap(x: u32): u32 {
    var b := Bytes32(x);
    Word32(b[3], b[2], b[1], b[0])
  }

  lemma BswapTwice(x: u32)
    ensures Bswap(Bswap(x)) == x
  {
    var b := Bytes32(x);
    hide Bytes32;
    BytesOfWord(b[3], b[2], b[1], b[0]);
  }

  /** The number that the four words of a counter stand for, as the modes say. */
  function Value(ctr: seq<u32>, bigEndian: bool, normal: bool): (v: nat)
    requires |ctr| == 4
    ensures v < TWO128
  {
    var w := if bigEndian then [Bswap(ctr[0]), Bswap(ctr[1]), Bswap(ctr[2]), Bswap(ctr[3])] else ctr;
    if normal then Joined(w[3], w[2], w[1], w[0]) else Joined(w[0], w[1], w[2], w[3])
  }

  /** Words, the least significant first. */
  function Joined(a: u32, b: u32, c: u32, d: u32): (v: nat)
    ensures v < TWO128
  {
    a + 0x1_0000_0000 * b + 0x1_0000_0000_0000_0000 * c + 0x1_0000_0000_0000_0000_0000_0000 * d
  }

  /** The four bytes of a word, of which the lowest digit comes first in memory, as a number that begins with the
      highest digit. */
  lemma SwapInBytes(x: u32)
    ensures Bswap(x) == x % 0x100 * 0x100_0000 + x / 0x100 % 0x100 * 0x1_0000 + x / 0x1_0000 % 0x100 * 0x100 + x / 0x100_0000
  {
  }

  /** The four modes in numbers: in the big-endian one the 16 bytes are a number that begins with the highest digit,
      or (reversed) its four words are. */
  lemma ValueInBytes(ctr: seq<u32>)
    requires |ctr| == 4
    ensures
      var swapped := (x: int) =>
        x % 0x100 * 0x100_0000 + x / 0x100 % 0x100 * 0x1_0000 + x / 0x1_0000 % 0x100 * 0x100 + x / 0x100_0000;
      var p32, p64, p96 := 0x1_0000_0000, 0x1_0000_0000_0000_0000, 0x1_0000_0000_0000_0000_0000_0000;
      var a: int, b: int, c: int, d: int := ctr[0], ctr[1], ctr[2], ctr[3];
      && Value(ctr, true, true) == swapped(a) * p96 + swapped(b) * p64 + swapped(c) * p32 + swapped(d)
      && Value(ctr, true, false) == swapped(d) * p96 + swapped(c) * p64 + swapped(b) * p32 + swapped(a)
      && Value(ctr, false, true) == a * p96 + b * p64 + c * p32 + d
      && Value(ctr, false, false) == d * p96 + c * p64 + b * p32 + a
  {
    hide Bswap;
    SwapInBytes(ctr[0]);
    SwapInBytes(ctr[1]);
    SwapInBytes(ctr[2]);
    SwapInBytes(ctr[3]);
  }

  /** 32-bit addition. */
  function Add32(x: u32, y: u32): (r: u32)
    ensures r == if x + y >= TWO32 then x + y - TWO32 else x + y
  {
    (x + y) % TWO32
  }

  /** ADD_u128_u32: the carry runs through the four words. */
  method Add128(a: u32, b: u32, c: u32, d: u32, val: u32) returns (a': u32, b': u32, c': u32, d': u32)
    ensures Joined(a', b', c', d') == (Joined(a, b, c, d) + val) % TWO128
  {
    hide Add32;
    a', b', c', d' := Add32(a, val), b, c, d;
    var carry := a + val >= TWO32;
    if carry {
      b' := Add32(b, 1);
      carry := b + 1 >= TWO32;
    }
    if carry {
      c' := Add32(c, 1);
      carry := c + 1 >= TWO32;
    }
    if carry {
      d' := Add32(d, 1);
    }
    Modulo(Joined(a, b, c, d) + val, Joined(a', b', c', d'));
  }

  lemma Modulo(x: nat, y: nat)
    requires y < TWO128 && (x == y || x == y + TWO128)
    ensures x % TWO128 == y
  {
  }

  method SwapAll(ctr: array<u32>)
    requires ctr.Length == 4
    modifies ctr
    ensures ctr[..] == [Bswap(old(ctr[0])), Bswap(old(ctr[1])), Bswap(old(ctr[2])), Bswap(old(ctr[3]))]
  {
    for i := 0 to 4
      invariant forall k :: 0 <= k < 4 ==> ctr[k] == if k < i then Bswap(old(ctr[k])) else old(ctr[k])
    {
      ctr[i] := Bswap(ctr[i]);
    }
  }

  /** aes_advctr, in all its modes: addition modulo 2^128. */
  method AdvCtr(ctr: array<u32>, val: u32, bigEndian: bool, normal: bool)
    requires ctr.Length == 4
    modifies ctr
    ensures Value(ctr[..], bigEndian, normal) == (Value(old(ctr[..]), bigEndian, normal) + val) % TWO128
  {
    hide Bswap, Joined;
    if bigEndian {
      SwapAll(ctr);
    }
    if normal {
      ctr[3], ctr[2], ctr[1], ctr[0] := Add128(ctr[3], ctr[2], ctr[1], ctr[0], val);
    } else {
      ctr[0], ctr[1], ctr[2], ctr[3] := Add128(ctr[0], ctr[1], ctr[2], ctr[3], val);
    }
    if bigEndian {
      BswapTwice(ctr[0]);
      BswapTwice(ctr[1]);
      BswapTwice(ctr[2]);
      BswapTwice(ctr[3]);
      SwapAll(ctr);
    }
  }

  /** What that means for the mode of the NAND: the 16 bytes of the counter, each word beginning with its lowest
      digit, are one number that begins with the highest digit, and grow as such. */
  lemma AdvancedInBytes(ctr: seq<u32>, ctr': seq<u32>, val: u32)
    requires |ctr| == |ctr'| == 4 && Value(ctr', true, true) == (Value(ctr, true, true) + val) % TWO128
    ensures
      var swapped := (x: int) =>
        x % 0x100 * 0x100_0000 + x / 0x100 % 0x100 * 0x1_0000 + x / 0x1_0000 % 0x100 * 0x100 + x / 0x100_0000;
      var number := (w: seq<int>) =>
        if |w| != 4 then 0 else
          swapped(w[0]) * 0x1_0000_0000_0000_0000_0000_0000 + swapped(w[1]) * 0x1_0000_0000_0000_0000
          + swapped(w[2]) * 0x1_0000_0000 + swapped(w[3]);
      number(ctr') == (number(ctr) + val) % 0x1_0000_0000_0000_0000_0000_0000_0000_0000
  {
    hide Value;
    ValueInBytes(ctr);
    ValueInBytes(ctr');
  }

  // ------------------------------------------------------------------------------------------
  // The keystream

  /** `data` combined with the keystream whose first block is that of counter `c`. */
  function Crypt(enc: Cipher, c: nat, data: Octets): (r: Octets)
    ensures |r| == |data|
  {
    seq(|data|, i requires 0 <= i < |data| => data[i] ^ enc((c + i / BLOCK) % TWO128)[i % BLOCK])
  }

  /** Whole blocks can be encrypted in pieces. */
  lemma CryptSplit(enc: Cipher, c: nat, a: Octets, b: Octets, k: nat)
    requires |a| == k * BLOCK
    ensures Crypt(enc, c, a + b) == Crypt(enc, c, a) + Crypt(enc, (c + k) % TWO128, b)
  {
    var l, r := Crypt(enc, c, a + b), Crypt(enc, c, a) + Crypt(enc, (c + k) % TWO128, b);
    forall i | 0 <= i < |l|
      ensures l[i] == r[i]
    {
      if i >= |a| {
        BlockIndex(c, k, i);
      }
    }
  }

  lemma BlockIndex(c: nat, k: nat, i: nat)
    requires i >= k * BLOCK
    ensures (c + i / BLOCK) % TWO128 == ((c + k) % TWO128 + (i - k * BLOCK) / BLOCK) % TWO128
    ensures i % BLOCK == (i - k * BLOCK) % BLOCK
  {
    var x := (i - k * BLOCK) / BLOCK;
    assert i / BLOCK == k + x;
    AddMod(c + k, x);
  }

  lemma AddMod(a: nat, b: nat)
    ensures (a % TWO128 + b) % TWO128 == (a + b) % TWO128
  {
  }

  /** Encryption and decryption are the same. */
  lemma CryptTwice(enc: Cipher, c: nat, data: Octets)
    ensures Crypt(enc, c, Crypt(enc, c, data)) == data
  {
    var l := Crypt(enc, c, Crypt(enc, c, data));
    forall i | 0 <= i < |data|
      ensures l[i] == data[i]
    {
      XorTwice(data[i], enc((c + i / BLOCK) % TWO128)[i % BLOCK]);
    }
  }

  lemma XorTwice(x: bv8, k: bv8)
    ensures (x ^ k) ^ k == x
  {
  }

  lemma CryptAt(enc: Cipher, c: nat, data: Octets, i: nat)
    requires i < |data|
    ensures Crypt(enc, c, data)[i] == data[i] ^ enc((c + i / BLOCK) % TWO128)[i % BLOCK]
  {
  }

  /** The engine in CTR mode: one counter block for each block of data, the counter counting up. */
  method AesBatch(enc: Cipher, buf: array<bv8>, off: nat, blocks: nat, ctr: nat)
    requires off + blocks * BLOCK <= buf.Length && ctr < TWO128
    modifies buf
    ensures buf[..] == Splice(old(buf[..]), off, Crypt(enc, ctr, old(buf[off..off + blocks * BLOCK])))
  {
    hide Crypt;
    var c := ctr;
    ghost var data := buf[off..off + blocks * BLOCK];
    for i := 0 to blocks * BLOCK
      invariant c == (ctr + i / BLOCK) % TWO128
      invariant forall k :: 0 <= k < buf.Length ==>
                  buf[k] == if off <= k < off + i then Crypt(enc, ctr, data)[k - off] else old(buf[k])
    {
      CryptAt(enc, ctr, data, i);
      buf[off + i] := buf[off + i] ^ enc(c)[i % BLOCK];
      if i % BLOCK == BLOCK - 1 {
        NextBlock(ctr, i);
        c := (c + 1) % TWO128;
      }
    }
  }

  lemma NextBlock(ctr: nat, i: nat)
    requires i % BLOCK == BLOCK - 1
    ensures ((ctr + i / BLOCK) % TWO128 + 1) % TWO128 == (ctr + (i + 1) / BLOCK) % TWO128
  {
    assert (i + 1) / BLOCK == i / BLOCK + 1;
    AddMod(ctr + i / BLOCK, 1);
  }

  /** One pass through the loop of aes. */
  method OneBatch(enc: Cipher, buf: array<bv8>, pos: nat, blocks: nat, iv: array<u32>,
                  ghost orig: Octets, ghost off: nat, ghost c0: nat, ghost data: Octets, ghost done: nat)
    requires iv.Length == 4 && iv as object != buf && |orig| == buf.Length && off + |data| <= |orig|
              && data == orig[off..off + |data|]
    requires pos == off + done * BLOCK && (done + blocks) * BLOCK <= |data| && blocks < TWO32
    requires Value(iv[..], true, true) == (c0 + done) % TWO128
    requires buf[..] == Splice(orig, off, Crypt(enc, c0, data[..done * BLOCK]))
    modifies buf, iv
    ensures Value(iv[..], true, true) == (c0 + (done + blocks)) % TWO128
    ensures buf[..] == Splice(orig, off, Crypt(enc, c0, data[..(done + blocks) * BLOCK]))
  {
    hide Crypt, Value, Splice;
    ghost var before := buf[..];
    AesBatch(enc, buf, pos, blocks, Value(iv[..], true, true));
    BatchDone(enc, orig, off, c0, data, done, blocks, before);
    AdvCtr(iv, blocks, true, true);
    AddMod(c0 + done, blocks);
  }

  /** aes in CTR mode, with a counter in big-endian words, in place: batches of at most 0xFFFF blocks,
      the counter advanced after each of them. The result is that of one single keystream. */
  method Aes(enc: Cipher, buf: array<bv8>, off: nat, blockCount: nat, iv: array<u32>)
    requires iv.Length == 4 && iv as object != buf && off + blockCount * BLOCK <= buf.Length
    modifies buf, iv
    ensures buf[..] == Splice(old(buf[..]), off, Crypt(enc, Value(old(iv[..]), true, true), old(buf[off..off + blockCount * BLOCK])))
    ensures Value(iv[..], true, true) == (Value(old(iv[..]), true, true) + blockCount) % TWO128
  {
    hide Crypt, Value, Splice;
    ghost var orig, c0 := buf[..], Value(iv[..], true, true);
    ghost var data := buf[off..off + blockCount * BLOCK];
    ghost var done := 0;
    var left: nat, pos: nat := blockCount, off;
    NothingDone(enc, orig, off, c0, data);
    while left != 0
      invariant done + left == blockCount && pos == off + done * BLOCK && done * BLOCK <= |data|
      invariant Value(iv[..], true, true) == (c0 + done) % TWO128
      invariant buf[..] == Splice(orig, off, Crypt(enc, c0, data[..done * BLOCK]))
      decreases left
    {
      var blocks := if left >= 0xFFFF then 0xFFFF else left;
      OneBatch(enc, buf, pos, blocks, iv, orig, off, c0, data, done);
      done := done + blocks;
      pos := pos + blocks * BLOCK;
      left := left - blocks;
    }
    assert data[..done * BLOCK] == data;
  }

  lemma NothingDone(enc: Cipher, orig: Octets, off: nat, c0: nat, data: Octets)
    requires off + |data| <= |orig|
    ensures orig == Splice(orig, off, Crypt(enc, c0, data[..0 * BLOCK])) && (c0 < TWO128 ==> (c0 + 0) % TWO128 == c0)
  {
    SpliceEmpty(orig, off, Crypt(enc, c0, data[..0]));
  }

  lemma BatchDone(enc: Cipher, orig: Octets, off: nat, c0: nat, data: Octets, done: nat, blocks: nat, before: Octets)
    requires (done + blocks) * BLOCK <= |data| && off + |data| <= |orig| && data == orig[off..off + |data|]
    requires before == Splice(orig, off, Crypt(enc, c0, data[..done * BLOCK]))
    ensures
      var pos := off + done * BLOCK;
      Splice(before, pos, Crypt(enc, (c0 + done) % TWO128, before[pos..pos + blocks * BLOCK]))
      == Splice(orig, off, Crypt(enc, c0, data[..(done + blocks) * BLOCK]))
  {
    hide Crypt, Splice;
    var a, b := data[..done * BLOCK], data[done * BLOCK..(done + blocks) * BLOCK];
    assert data[..(done + blocks) * BLOCK] == a + b;
    SpliceBehind(orig, off, Crypt(enc, c0, a), blocks * BLOCK);
    SliceOf(orig, off, data, done * BLOCK, (done + blocks) * BLOCK);
    CryptSplit(enc, c0, a, b, done);
    SpliceNext(orig, off, Crypt(enc, c0, a), Crypt(enc, (c0 + done) % TWO128, b));
  }

  lemma SliceOf(orig: Octets, off: nat, data: Octets, i: nat, j: nat)
    requires off + |data| <= |orig| && data == orig[off..off + |data|] && i <= j <= |data|
    ensures orig[off + i..off + j] == data[i..j]
  {
    var l, r := orig[off + i..off + j], data[i..j];
    assert forall k :: 0 <= k < j - i ==> l[k] == orig[off + i + k] == data[i + k] == r[k];
  }

  // ------------------------------------------------------------------------------------------
  // The NAND

  /** A storage device as a sequence of octets. Transfers report 0 for success; nothing is assumed about
      when they fail. */
  class Device {
    var data: Octets

    constructor (data: Octets)
      ensures this.data == data
    {
      this.data := data;
    }

    method ReadSectors(sector: u32, count: nat, buf: array<bv8>) returns (result: int)
      requires count * SS <= buf.Length
      modifies buf
      ensures result == 0 ==>
                (sector + count) * SS <= |data|
                    && buf[..] == Splice(old(buf[..]), 0, data[sector * SS..(sector + count) * SS])
    {
      result := *;
      if (sector + count) * SS > |data| { result := -1; }
      if result == 0 {
        CopyInto(buf, 0, data[sector * SS..(sector + count) * SS]);
      }
    }

    method WriteSectors(sector: u32, src: Octets) returns (result: int)
      requires |src| % SS == 0
      modifies this
      ensures |data| == |old(data)|
      ensures result == 0 ==> sector * SS + |src| <= |data| && data == Splice(old(data), sector * SS, src)
      ensures forall i :: 0 <= i < |data| && !(sector * SS <= i < sector * SS + |src|) ==> data[i] == old(data)[i]
    {
      result := *;
      if sector * SS + |src| > |data| { result := -1; }
      if result == 0 {
        data := Splice(data, sector * SS, src);
      } else {
        var written :| 0 <= written <= |src|;  // what a failed transfer has done before it failed
        if sector * SS + |src| <= |data| {
          data := Splice(data, sector * SS, src[..written]);
        }
      }
    }
  }

  /** Counter value for the first block of device sector `s`, from the counter of block 0: the byte offset
      of the sector is a 32-bit number. */
  function SectorCounter(base: nat, s: u32): (c: nat)
    ensures c < TWO128
  {
    (base + s * SS % TWO32 / BLOCK) % TWO128
  }

  /** In bytes: byte `k` of the data of sector `s` is combined with a byte of the block `k` / 16 places after the first
      of the sector, and that one is the byte offset of the sector, as a 32-bit number, in units of 16 bytes. */
  lemma KeystreamInBytes(enc: Cipher, base: nat, s: u32, data: Octets, k: nat)
    requires k < |data|
    ensures Crypt(enc, SectorCounter(base, s), data)[k]
            == data[k] ^ enc((base + s * 512 % 0x1_0000_0000 / 16 + k / 16) % 0x1_0000_0000_0000_0000_0000_0000_0000_0000)[k % 16]
  {
    hide Crypt;
    CryptAt(enc, SectorCounter(base, s), data, k);
    AddMod(base + s * SS % TWO32 / BLOCK, k / BLOCK);
  }

  class CtrNand {
    const enc: Cipher            // the cipher with the NAND key
    const nandCtr: array<u32>
    const buffer: array<bv8>     // the bounce buffer of ctrNandWrite
    const nand: Device
    const sd: Device
    var sysNand: bool            // ctrNandLocation == FIRMWARE_SYSNAND
    var fatStart: u32
    var emuOffset: u32

    constructor (enc: Cipher, nandCtr: array<u32>, nand: Device, sd: Device, sysNand: bool, fatStart: u32,
                 emuOffset: u32)
      requires nandCtr.Length == 4 && nand != sd
      ensures Valid() && fresh(buffer) && this.nandCtr == nandCtr && this.nand == nand && this.sd == sd
                && this.enc == enc
      ensures this.sysNand == sysNand && this.fatStart == fatStart && this.emuOffset == emuOffset
    {
      this.enc, this.nandCtr, this.nand, this.sd := enc, nandCtr, nand, sd;
      this.sysNand, this.fatStart, this.emuOffset := sysNand, fatStart, emuOffset;
      buffer := new bv8[0x4000];
    }

    ghost predicate Valid() {
      nandCtr.Length == 4 && buffer.Length == 0x4000 && nand != sd
    }

    ghost function Base(): nat
      requires Valid()
      reads nandCtr
    {
      Value(nandCtr[..], true, true)
    }

    /** tmpCtr: the counter for the first block of sector `s`. */
    method CounterFor(s: u32) returns (tmpCtr: array<u32>)
      requires Valid()
      ensures fresh(tmpCtr) && tmpCtr.Length == 4 && Value(tmpCtr[..], true, true) == SectorCounter(Base(), s)
    {
      hide Value;
      tmpCtr := new u32[4];
      for i := 0 to 4
        invariant forall k :: 0 <= k < i ==> tmpCtr[k] == nandCtr[k]
      {
        tmpCtr[i] := nandCtr[i];
      }
      assert tmpCtr[..] == nandCtr[..];
      AdvCtr(tmpCtr, s * SS % TWO32 / BLOCK, true, true);
    }

    /** Sector `sector` of the FAT partition, as a sector of the NAND. */
    function AbsSector(sector: u32): u32
      reads this`fatStart
    {
      (sector + fatStart) % TWO32
    }

    lemma AbsIs(sector: u32)
      ensures AbsSector(sector) == (sector + fatStart) % 0x1_0000_0000
    {
    }

    /** The first device sector, and the device, of a read from `sector` on. */
    function ReadSector(sector: u32): u32
      reads this
    {
      if sysNand then AbsSector(sector) else (sector + emuOffset + fatStart) % TWO32
    }

    function ReadDevice(): Device
      reads this
    {
      if sysNand then nand else sd
    }

    /** The transfer of ctrNandRead. */
    method Fetch(sector: u32, sectorCount: u32, outbuf: array<bv8>) returns (result: int)
      requires Valid() && sectorCount * SS <= outbuf.Length
      modifies outbuf
      ensures result == 0 ==>
                && (ReadSector(sector) + sectorCount) * SS <= |ReadDevice().data|
                && outbuf[..] == Splice(old(outbuf[..]), 0, ReadDevice().data[ReadSector(sector) * SS..(ReadSector(sector) + sectorCount) * SS])
    {
      hide Splice;
      if sysNand {
        result := nand.ReadSectors(AbsSector(sector), sectorCount, outbuf);
      } else {
        var shifted := (sector + emuOffset) % TWO32;
        SumWraps(sector, emuOffset, fatStart);
        result := sd.ReadSectors((shifted + fatStart) % TWO32, sectorCount, outbuf);
      }
    }

    /** ctrNandRead: the sectors, decrypted. */
    method Read(sector: u32, sectorCount: u32, outbuf: array<bv8>) returns (result: int)
      requires Valid() && sectorCount * SS <= outbuf.Length < TWO32
      modifies outbuf
      ensures result == 0 ==>
                && (ReadSector(sector) + sectorCount) * SS <= |ReadDevice().data|
                && outbuf[..] == Splice(old(outbuf[..]), 0,
                     Crypt(enc, SectorCounter(Base(), AbsSector(sector)),
                           ReadDevice().data[ReadSector(sector) * SS..(ReadSector(sector) + sectorCount) * SS]))
    {
      hide Crypt, Value, Splice, SectorCounter, CtrNand.ReadSector, CtrNand.AbsSector;
      var s := AbsSector(sector);
      var tmpCtr := CounterFor(s);
      result := Fetch(sector, sectorCount, outbuf);
      ghost var was := outbuf[..];
      BlocksOf(sectorCount);
      Aes(enc, outbuf, 0, sectorCount * SS % TWO32 / BLOCK, tmpCtr);
      if result == 0 {
        ReadBack(old(outbuf[..]), ReadDevice().data[ReadSector(sector) * SS..(ReadSector(sector) + sectorCount) * SS],
                 was, enc, SectorCounter(Base(), s));
      }
    }

    /** Encrypts `n` sectors in the bounce buffer. */
    method EncryptChunk(n: nat, piece: Octets, tmpCtr: array<u32>)
      requires Valid() && tmpCtr.Length == 4 && tmpCtr as object != buffer && |piece| == n * SS <= 0x4000
      modifies buffer, tmpCtr
      ensures buffer[..n * SS] == Crypt(enc, Value(old(tmpCtr[..]), true, true), piece)
      ensures Value(tmpCtr[..], true, true) == (Value(old(tmpCtr[..]), true, true) + n * SECTOR_BLOCKS) % TWO128
    {
      hide Crypt, Value, Splice;
      ghost var was, c := buffer[..], Value(tmpCtr[..], true, true);
      CopyInto(buffer, 0, piece);
      InFront(was, buffer[..], piece);
      was := buffer[..];
      Aes(enc, buffer, 0, n * SS / BLOCK, tmpCtr);
      InFront(was, buffer[..], Crypt(enc, c, piece));
    }

    /** One pass through the loop of ctrNandWrite: `n` sectors through the bounce buffer. */
    method WriteChunk(sector: u32, t: nat, n: nat, inbuf: Octets, tmpCtr: array<u32>, ghost orig: Octets, ghost c: nat)
      returns (result: int)
      requires Valid() && tmpCtr.Length == 4 && tmpCtr as object != buffer && 0 < n <= 32
                && (t + n) * SS <= |inbuf| < TWO32
      requires |orig| < TWO32 * SS && Stored(orig, nand.data, AbsSector(sector), enc, c, inbuf, t)
      requires Value(tmpCtr[..], true, true) == (c + t * SECTOR_BLOCKS) % TWO128
      modifies buffer, nand, tmpCtr
      ensures |nand.data| == |orig|
      ensures Value(tmpCtr[..], true, true) == (c + (t + n) * SECTOR_BLOCKS) % TWO128
      ensures result == 0 ==> Stored(orig, nand.data, AbsSector(sector), enc, c, inbuf, t + n)
      ensures Elsewhere(orig, nand.data, AbsSector(sector), t + n)
    {
      hide Crypt, Value, Splice, Stored, Elsewhere, CtrNand.AbsSector;
      EncryptChunk(n, inbuf[t * SS..(t + n) * SS], tmpCtr);
      AddMod(c + t * SECTOR_BLOCKS, n * SECTOR_BLOCKS);
      AbsIs(sector);
      ChunkPlace(orig, nand.data, sector, fatStart, AbsSector(sector), enc, c, inbuf, t);
      ghost var before := nand.data;
      result := nand.WriteSectors((t + sector + fatStart) % TWO32, buffer[..n * SS]);
      if result == 0 {
        StoreMore(orig, before, nand.data, AbsSector(sector), enc, c, inbuf, t, n);
      }
      StillElsewhere(orig, before, nand.data, AbsSector(sector), enc, c, inbuf, t, n);
    }

    /** ctrNandWrite: the data, encrypted in the bounce buffer 32 sectors at a time, to the NAND. */
    method Write(sector: u32, sectorCount: u32, inbuf: Octets) returns (result: int)
      requires Valid() && sectorCount * SS == |inbuf| < TWO32 && |nand.data| < TWO32 * SS
      modifies buffer, nand
      ensures |nand.data| == |old(nand.data)|
      ensures result == 0 ==> Stored(old(nand.data), nand.data, AbsSector(sector), enc,
                                     SectorCounter(Base(), AbsSector(sector)), inbuf, sectorCount)
      ensures Elsewhere(old(nand.data), nand.data, AbsSector(sector), sectorCount)
    {
      hide Crypt, Value, Splice, SectorCounter, Stored, CtrNand.AbsSector;
      ghost var c, orig := SectorCounter(Base(), AbsSector(sector)), nand.data;
      var tmpCtr := CounterFor(AbsSector(sector));
      NothingStored(orig, AbsSector(sector), enc, c, inbuf);
      result := 0;
      var tempSector := 0;
      ghost var done := 0;
      while tempSector < sectorCount && result == 0
        invariant 0 <= tempSector && done == (if tempSector < sectorCount then tempSector else sectorCount)
        invariant |nand.data| == |orig| && tmpCtr.Length == 4 && fresh(tmpCtr)
        invariant Value(tmpCtr[..], true, true) == (c + done * SECTOR_BLOCKS) % TWO128
        invariant result == 0 ==> Stored(orig, nand.data, AbsSector(sector), enc, c, inbuf, done)
        invariant Elsewhere(orig, nand.data, AbsSector(sector), sectorCount)
        decreases sectorCount - tempSector
      {
        var tempCount := if 0x4000 / SS < sectorCount - tempSector then 0x4000 / SS else sectorCount - tempSector;
        result := WriteChunk(sector, tempSector, tempCount, inbuf, tmpCtr, orig, c);
        done := tempSector + tempCount;
        tempSector := tempSector + 0x4000 / SS;
      }
    }

    /** A read from a later sector of the SysNAND. */
    lemma LaterPlace(sector: u32, j: u32)
      requires sysNand && AbsSector(sector) + j < TWO32
      ensures AbsSector((sector + j) % TWO32) == ReadSector((sector + j) % TWO32) == AbsSector(sector) + j
                && ReadDevice() == nand
    {
      LaterSector(sector, fatStart, j);
    }

    /** The law on the code itself: ctrNandWrite of sectors to the SysNAND and then ctrNandRead of `m` of them,
        from the `j`-th on, gives the written bytes back if and only if both start in the same window. (For
        "only if" see RoundTrip.) */
    method WriteThenRead(sector: u32, sectorCount: u32, inbuf: Octets, j: u32, m: u32, outbuf: array<bv8>)
      returns (result: int)
      requires Valid() && sysNand && sectorCount * SS == |inbuf| < TWO32 && |nand.data| < TWO32 * SS
      requires 0 < m && j + m <= sectorCount && m * SS <= outbuf.Length < TWO32
      modifies buffer, nand, outbuf
      ensures result == 0 && AbsSector(sector) / WINDOW == (AbsSector(sector) + j) / WINDOW ==>
                outbuf[..m * SS] == inbuf[j * SS..(j + m) * SS]
      ensures result == 0 && Injective(enc) && AbsSector(sector) / WINDOW != (AbsSector(sector) + j) / WINDOW ==>
                outbuf[..m * SS] != inbuf[j * SS..(j + m) * SS]
    {
      hide Crypt, Value, Splice, SectorCounter, Stored, Injective, CtrNand.AbsSector, CtrNand.ReadSector,
           CtrNand.ReadDevice;
      ghost var orig, s := nand.data, AbsSector(sector);
      result := Write(sector, sectorCount, inbuf);
      if result == 0 {
        assert s + sectorCount < TWO32 by { StoredInside(orig, nand.data, s, enc, SectorCounter(Base(), s), inbuf, sectorCount); }
        LaterPlace(sector, j);
        ghost var was, now := outbuf[..], nand.data;
        RoundTrip(enc, Base(), orig, now, s, inbuf, sectorCount, j, m);
        result := Read((sector + j) % TWO32, m, outbuf);
        if result == 0 {
          InFront(was, outbuf[..], Crypt(enc, SectorCounter(Base(), s + j), now[(s + j) * SS..(s + j + m) * SS]));
        }
      }
    }
  }

  lemma StoredInside(orig: Octets, now: Octets, s: u32, enc: Cipher, c: nat, data: Octets, n: nat)
    requires Stored(orig, now, s, enc, c, data, n) && 0 < n && |orig| < TWO32 * SS
    ensures s + n < TWO32
  {
  }

  lemma LaterSector(sector: u32, start: u32, j: u32)
    requires (sector + start) % TWO32 + j < TWO32
    ensures ((sector + j) % TWO32 + start) % TWO32 == (sector + start) % TWO32 + j
  {
    SumWraps(sector, j, start);
    SmallSum(sector + start, j);
  }

  /** From device contents `orig` to `now`: the first `n` sectors of `data` have been stored, encrypted, from
      sector `s` on, and nothing else has changed. */
  ghost predicate Stored(orig: Octets, now: Octets, s: u32, enc: Cipher, c: nat, data: Octets, n: nat) {
    if n == 0 then now == orig
    else (s + n) * SS <= |orig| && n * SS <= |data| && now == Splice(orig, s * SS, Crypt(enc, c, data[..n * SS]))
  }

  /** Nothing has changed but, possibly, `n` sectors from sector `s` on. */
  ghost predicate Elsewhere(orig: Octets, now: Octets, s: u32, n: nat) {
    |now| == |orig| && forall i :: 0 <= i < |orig| && !(s * SS <= i < (s + n) * SS) ==> now[i] == orig[i]
  }

  lemma NothingStored(orig: Octets, s: u32, enc: Cipher, c: nat, data: Octets)
    ensures Stored(orig, orig, s, enc, c, data, 0) && (c < TWO128 ==> (c + 0 * SECTOR_BLOCKS) % TWO128 == c)
  {
  }

  lemma InFront(was: Octets, now: Octets, bytes: Octets)
    requires |bytes| <= |was| && now == Splice(was, 0, bytes)
    ensures now[0..0 + |bytes|] == bytes && now[..|bytes|] == bytes
  {
  }

  /** The sector number of a later chunk does not wrap around, since the chunk before lies on the device. */
  lemma ChunkPlace(orig: Octets, now: Octets, sector: u32, start: u32, s: u32, enc: Cipher, c: nat, data: Octets,
                   t: nat)
    requires |orig| < TWO32 * SS && Stored(orig, now, s, enc, c, data, t) && s == (sector + start) % TWO32
    ensures (t + sector + start) % TWO32 == s + t && |now| == |orig|
  {
    if t > 0 {
      assert s + t < TWO32;
    }
    SmallSum(sector + start, t);
  }

  lemma SmallSum(a: nat, b: nat)
    requires a % TWO32 + b < TWO32
    ensures (b + a) % TWO32 == a % TWO32 + b
  {
    var q := a / TWO32;
    assert a + b == q * TWO32 + (a % TWO32 + b);
    Arith.DivModUnique(a + b, TWO32, q, a % TWO32 + b);
  }

  lemma StoreMore(orig: Octets, before: Octets, now: Octets, s: u32, enc: Cipher, c: nat, data: Octets, t: nat, n: nat)
    requires Stored(orig, before, s, enc, c, data, t) && 0 < n && (t + n) * SS <= |data|
    requires |before| == |orig| && (s + t) * SS + n * SS <= |before|
    requires now == Splice(before, (s + t) * SS, Crypt(enc, (c + t * SECTOR_BLOCKS) % TWO128, data[t * SS..(t + n) * SS]))
    ensures Stored(orig, now, s, enc, c, data, t + n)
  {
    hide Crypt;
    var a, b := data[..t * SS], data[t * SS..(t + n) * SS];
    assert data[..(t + n) * SS] == a + b;
    CryptSplit(enc, c, a, b, t * SECTOR_BLOCKS);
    if t == 0 {
      assert a == [];
      SpliceEmpty(orig, s * SS, Crypt(enc, c, a));
    }
    SpliceNext(orig, s * SS, Crypt(enc, c, a), Crypt(enc, (c + t * SECTOR_BLOCKS) % TWO128, b));
  }

  lemma StillElsewhere(orig: Octets, before: Octets, now: Octets, s: u32, enc: Cipher, c: nat, data: Octets, t: nat,
                       n: nat)
    requires Stored(orig, before, s, enc, c, data, t) && |now| == |before|
    requires forall i :: 0 <= i < |now| && !((s + t) * SS <= i < (s + t) * SS + n * SS) ==> now[i] == before[i]
    ensures Elsewhere(orig, now, s, t + n)
  {
    hide Crypt;
  }

  // ------------------------------------------------------------------------------------------
  // The round trip

  ghost predicate Injective(enc: Cipher) {
    forall a, b :: 0 <= a < TWO128 && 0 <= b < TWO128 && enc(a) == enc(b) ==> a == b
  }

  /** After ctrNandWrite of `plain` to the sectors from `s` on, ctrNandRead of `m` of them from sector
      `s + j` on returns their data if and only if the two transfers start in the same window of 2^23
      sectors: the 32-bit byte offset from which each of them takes its counter wraps around there. (For
      "only if" the cipher must give different blocks for different counters, as AES does.) */
  lemma RoundTrip(enc: Cipher, base: nat, orig: Octets, now: Octets, s: u32, plain: Octets, n: nat, j: nat, m: nat)
    requires Stored(orig, now, s, enc, SectorCounter(base, s), plain, n) && |plain| == n * SS
    requires 0 < m && j + m <= n && s + n <= TWO32
    ensures (s + j + m) * SS <= |now|
    ensures
      var back := Crypt(enc, SectorCounter(base, s + j), now[(s + j) * SS..(s + j + m) * SS]);
      && (s / WINDOW == (s + j) / WINDOW ==> back == plain[j * SS..(j + m) * SS])
      && (Injective(enc) && s / WINDOW != (s + j) / WINDOW ==> back != plain[j * SS..(j + m) * SS])
  {
    hide Crypt, SectorCounter;
    var c := SectorCounter(base, s);
    var part := plain[j * SS..(j + m) * SS];
    var ks := (c + j * SECTOR_BLOCKS) % TWO128;
    assert plain[..n * SS] == plain;
    StoredPart(orig, now, s, enc, c, plain, n, j, m);
    CounterDistance(base, s, j);
    if s / WINDOW == (s + j) / WINDOW {
      CryptTwice(enc, ks, part);
    } else if Injective(enc) {
      WrongKey(enc, ks, SectorCounter(base, s + j), part);
    }
  }

  lemma StoredPart(orig: Octets, now: Octets, s: u32, enc: Cipher, c: nat, plain: Octets, n: nat, j: nat, m: nat)
    requires Stored(orig, now, s, enc, c, plain, n) && |plain| == n * SS && 0 < m && j + m <= n
    ensures (s + j + m) * SS <= |now|
    ensures now[(s + j) * SS..(s + j + m) * SS] == Crypt(enc, (c + j * SECTOR_BLOCKS) % TWO128, plain[j * SS..(j + m) * SS])
  {
    hide Crypt;
    var a, b, d := plain[..j * SS], plain[j * SS..(j + m) * SS], plain[(j + m) * SS..];
    assert plain[..n * SS] == plain == a + (b + d);
    var c' := (c + j * SECTOR_BLOCKS) % TWO128;
    CryptSplit(enc, c, a, b + d, j * SECTOR_BLOCKS);
    CryptSplit(enc, c', b, d, m * SECTOR_BLOCKS);
    Piece(orig, now, s * SS, Crypt(enc, c, a), Crypt(enc, c', b), Crypt(enc, (c' + m * SECTOR_BLOCKS) % TWO128, d));
  }

  lemma Piece(orig: Octets, now: Octets, off: nat, a: Octets, b: Octets, d: Octets)
    requires off + |a| + |b| + |d| <= |orig| && now == Splice(orig, off, a + (b + d))
    ensures now[off + |a|..off + |a| + |b|] == b
  {
  }

  /** The counters that the two transfers use for the same sector. */
  lemma CounterDistance(base: nat, s: u32, j: nat)
    requires s + j < TWO32
    ensures s / WINDOW == (s + j) / WINDOW ==>
              SectorCounter(base, s + j) == (SectorCounter(base, s) + j * SECTOR_BLOCKS) % TWO128
    ensures s / WINDOW != (s + j) / WINDOW ==>
              SectorCounter(base, s + j) != (SectorCounter(base, s) + j * SECTOR_BLOCKS) % TWO128
  {
    var o, o' := s % WINDOW * SECTOR_BLOCKS, (s + j) % WINDOW * SECTOR_BLOCKS;
    OffsetOf(s);
    OffsetOf(s + j);
    AddMod(base + o, j * SECTOR_BLOCKS);
    var m := (s + j) / WINDOW - s / WINDOW;
    assert o + j * SECTOR_BLOCKS == o' + m * 0x1000_0000;
    if m != 0 {
      Apart128(base + o', m * 0x1000_0000);
    }
  }

  lemma OffsetOf(s: u32)
    ensures s * SS % TWO32 / BLOCK == s % WINDOW * SECTOR_BLOCKS
  {
    var q, r := s / WINDOW, s % WINDOW;
    assert s * SS == q * TWO32 + r * SS;
    Arith.DivModUnique(s * SS, TWO32, q, r * SS);
  }

  lemma Apart128(x: nat, d: nat)
    requires 0 < d < TWO128
    ensures (x + d) % TWO128 != x % TWO128
  {
  }

  /** Decrypting with the wrong counter does not give the data back. */
  lemma WrongKey(enc: Cipher, c: nat, c': nat, data: Octets)
    requires Injective(enc) && c < TWO128 && c' < TWO128 && c != c' && |data| >= BLOCK
    ensures Crypt(enc, c', Crypt(enc, c, data)) != data
  {
    var k, k' := enc(c), enc(c');
    assert k != k';
    hide Crypt, Injective;
    var i :| 0 <= i < BLOCK && k[i] != k'[i];
    FirstBlock(enc, c, data, i);
    FirstBlock(enc, c', Crypt(enc, c, data), i);
    XorDiffers(data[i], k[i], k'[i]);
  }

  lemma FirstBlock(enc: Cipher, c: nat, data: Octets, i: nat)
    requires c < TWO128 && i < BLOCK <= |data|
    ensures Crypt(enc, c, data)[i] == data[i] ^ enc(c)[i]
  {
    CryptAt(enc, c, data, i);
  }

  lemma XorDiffers(x: bv8, k: bv8, k': bv8)
    requires k != k'
    ensures (x ^ k) ^ k' != x
  {
  }

  lemma BlocksOf(count: u32)
    requires count * SS < TWO32
    ensures count * SS % TWO32 / BLOCK == count * SECTOR_BLOCKS && count * SECTOR_BLOCKS * BLOCK == count * SS
  {
  }

  lemma SumWraps(a: u32, b: u32, c: u32)
    ensures ((a + b) % TWO32 + c) % TWO32 == (a + b + c) % TWO32
  {
  }

  lemma ReadBack(before: Octets, raw: Octets, was: Octets, enc: Cipher, c: nat)
    requires |raw| <= |before| && was == Splice(before, 0, raw)
    ensures 0 + |raw| <= |was|
    ensures Splice(was, 0, Crypt(enc, c, was[0..0 + |raw|])) == Splice(before, 0, Crypt(enc, c, raw))
  {
    hide Crypt;
    assert was[0..0 + |raw|] == raw;
  }
}
