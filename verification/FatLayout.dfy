/** The three packed layouts of a file allocation table
    (FAT32 File System Specification 1.03, section "FAT Data Structure"). */
module FatLayout {
  import opened Words
  import opened Flatten
  import Arith

  datatype FatType = Fat12 | Fat16 | Fat32

  /** Offset of the first byte that holds a part of entry `c`. */
  function EntryStart(t: FatType, c: nat): nat {
    match t
    case Fat12 => c + c / 2
    case Fat16 => c * 2
    case Fat32 => c * 4
  }

  /** Number of bytes that hold a part of an entry. */
  function EntryWidth(t: FatType): nat {
    if t == Fat32 then 4 else 2
  }

  /** What is left of a value after it has been stored in an entry: 12, 16 or (in FAT32) 28 bits. */
  function Masked(t: FatType, val: u32): u32 {
    match t
    case Fat12 => val % 0x1000
    case Fat16 => val % 0x10000
    case Fat32 => val % 0x1000_0000
  }

  /** The end-of-chain mark as it reads back: all entry bits set. */
  function Eoc(t: FatType): (r: u32)
    ensures r == match t { case Fat12 => 0xFFF case Fat16 => 0xFFFF case Fat32 => 0x0FFF_FFFF }
  {
    Masked(t, 0xFFFF_FFFF)
  }

  ghost predicate Fits(t: FatType, tab: seq<byte>, c: nat) {
    EntryStart(t, c) + EntryWidth(t) <= |tab|
  }

  /** The value of entry `c` of the table with bytes `tab`. */
  function Entry(t: FatType, tab: seq<byte>, c: nat): (r: u32)
    requires Fits(t, tab, c)
    ensures r < 0x1000_0000
  {
    var i := EntryStart(t, c);
    match t
    case Fat12 => Pick12(c, tab[i], tab[i + 1])
    case Fat16 => Word16(tab[i], tab[i + 1])
    case Fat32 => Dword(tab, i) % 0x1000_0000
  }

  /** Little-endian decodings. */
  function Word16(b0: int, b1: int): int {
    b0 + 0x100 * b1
  }

  function Word32(b0: int, b1: int, b2: int, b3: int): int {
    b0 + 0x100 * b1 + 0x10000 * b2 + 0x100_0000 * b3
  }

  /** The 32-bit word at offset `i`. */
  function Dword(tab: seq<byte>, i: nat): u32
    requires i + 4 <= |tab|
  {
    Word32(tab[i], tab[i + 1], tab[i + 2], tab[i + 3])
  }

  lemma SameDword(a: seq<byte>, i: nat, b: seq<byte>, j: nat)
    requires i + 4 <= |a| && j + 4 <= |b|
    requires a[i] == b[j] && a[i + 1] == b[j + 1] && a[i + 2] == b[j + 2] && a[i + 3] == b[j + 3]
    ensures Dword(a, i) == Dword(b, j)
  {
  }

  /** The 12 bits of entry `c` out of the two bytes that hold them. */
  function Pick12(c: nat, lo: byte, hi: byte): (r: u32)
    ensures r == if c % 2 == 1 then lo / 16 + 16 * hi else lo + 256 * (hi % 16)
  {
    if c % 2 == 1 then Word16(lo, hi) / 16 else Word16(lo, hi) % 0x1000
  }

  /** `fat` lists the values of all entries of the table with bytes `tab`. */
  ghost predicate Decodes(t: FatType, tab: seq<byte>, fat: seq<int>) {
    forall c :: 0 <= c < |fat| ==> Fits(t, tab, c) && fat[c] == Entry(t, tab, c)
  }

  lemma Entry12(tab: seq<byte>, fat: seq<int>, c: nat)
    requires Decodes(Fat12, tab, fat) && c < |fat|
    ensures c + c / 2 + 1 < |tab| && fat[c] == Pick12(c, tab[c + c / 2], tab[c + c / 2 + 1])
  {
    assert Fits(Fat12, tab, c);
  }

  /** The value of an entry, in the bytes of the table. */
  lemma EntryBytes(t: FatType, tab: seq<byte>, c: nat)
    requires Fits(t, tab, c)
    ensures t == Fat12 ==>
              && c * 3 / 2 + 1 < |tab|
              && var b0: int, b1: int := tab[c * 3 / 2], tab[c * 3 / 2 + 1];
                 Entry(t, tab, c) == if c % 2 == 0 then b0 + 0x100 * (b1 % 0x10) else b0 / 0x10 + 0x10 * b1
    ensures t == Fat16 ==>
              && 2 * c + 1 < |tab|
              && var b0: int, b1: int := tab[2 * c], tab[2 * c + 1];
                 Entry(t, tab, c) == b0 + 0x100 * b1
    ensures t == Fat32 ==>
              && 4 * c + 3 < |tab|
              && var b0: int, b1: int, b2: int, b3: int := tab[4 * c], tab[4 * c + 1], tab[4 * c + 2], tab[4 * c + 3];
                 Entry(t, tab, c) == b0 + 0x100 * b1 + 0x1_0000 * b2 + 0x100_0000 * (b3 % 0x10)
  {
    if t == Fat12 {
      assert c == c / 2 * 2 + c % 2;
    } else if t == Fat32 {
      Cut28(tab[4 * c], tab[4 * c + 1], tab[4 * c + 2], tab[4 * c + 3]);
    }
  }

  lemma Cut28(b0: byte, b1: byte, b2: byte, b3: byte)
    ensures (b0 + 0x100 * b1 + 0x1_0000 * b2 + 0x100_0000 * b3) % 0x1000_0000
            == b0 + 0x100 * b1 + 0x1_0000 * b2 + 0x100_0000 * (b3 % 0x10)
  {
    var low: int := b0 + 0x100 * b1 + 0x1_0000 * b2;
    Arith.DivModUnique(low + 0x100_0000 * b3, 0x1000_0000, b3 / 0x10, low + 0x100_0000 * (b3 % 0x10));
  }

  /** Little-endian encodings. */
  function Bytes16(val: u32): (r: seq<byte>)
    ensures |r| == 2 && Word16(r[0], r[1]) == val % 0x10000
  {
    Arith.ModSplit(val, 256, 256);
    [val % 256, val / 256 % 256]
  }

  function Bytes32(val: u32): (r: seq<byte>)
    ensures |r| == 4 && Word32(r[0], r[1], r[2], r[3]) == val
  {
    Arith.ModSplit(val, 256, 256);
    Arith.ModSplit(val, 0x10000, 256);
    [val % 256, val / 256 % 256, val / 0x10000 % 256, val / 0x100_0000]
  }

  /** The 32 bits put_fat stores in a FAT32 entry: 28 from `val`, the top 4 from the word there. */
  function Merged32(val: u32, was: u32): (r: u32)
    ensures r % 0x1000_0000 == val % 0x1000_0000
    ensures r / 0x1000_0000 == was / 0x1000_0000
  {
    val % 0x1000_0000 + was / 0x1000_0000 * 0x1000_0000
  }

  lemma BytesOfWord(b0: byte, b1: byte, b2: byte, b3: byte)
    ensures 0 <= b0 + 0x100 * b1 + 0x1_0000 * b2 + 0x100_0000 * b3 < TWO32
    ensures Bytes32(b0 + 0x100 * b1 + 0x1_0000 * b2 + 0x100_0000 * b3) == [b0, b1, b2, b3]
    ensures Word32(b0, b1, b2, b3) == b0 + 0x100 * b1 + 0x1_0000 * b2 + 0x100_0000 * b3
  {
    var x: int := b0 + 0x100 * b1 + 0x1_0000 * b2 + 0x100_0000 * b3;
    var x1: int := b1 + 0x100 * b2 + 0x1_0000 * b3;
    var x2: int := b2 + 0x100 * b3;
    Arith.DivModUnique(x, 0x100, x1, b0);
    Arith.DivModUnique(x1, 0x100, x2, b1);
    Arith.DivModUnique(x2, 0x100, b3, b2);
    Arith.ModSplit(x, 0x100, 0x100);
    Arith.ModSplit(x, 0x1_0000, 0x100);
  }

  /** The table after put_fat has stored the bytes of a 16-bit entry. */
  lemma Written16(tab: seq<byte>, c: nat, val: u32)
    requires Fits(Fat16, tab, c)
    ensures
      && 2 * c + 1 < |tab|
      && Splice(tab, c * 2, Bytes16(val)) == tab[2 * c := val % 0x100][2 * c + 1 := val / 0x100 % 0x100]
  {
  }

  /** The same for FAT32, over what was there. */
  lemma Written32(tab: seq<byte>, c: nat, val: u32)
    requires Fits(Fat32, tab, c)
    ensures
      && 4 * c + 3 < |tab|
      && var b3: int := tab[4 * c + 3];
         Splice(tab, c * 4, Bytes32(Merged32(val, Dword(tab, c * 4)))) ==
         tab[4 * c := val % 0x100][4 * c + 1 := val / 0x100 % 0x100][4 * c + 2 := val / 0x1_0000 % 0x100]
            [4 * c + 3 := val / 0x100_0000 % 0x10 + b3 / 0x10 * 0x10]
  {
    hide Bytes32, Merged32, Splice;
    TopByte(tab[c * 4], tab[c * 4 + 1], tab[c * 4 + 2], tab[c * 4 + 3]);
    MergedBytes(val, Dword(tab, c * 4), tab[c * 4 + 3]);
    SpliceFour(tab, c * 4, val % 0x100, val / 0x100 % 0x100, val / 0x1_0000 % 0x100,
               val / 0x100_0000 % 0x10 + tab[c * 4 + 3] / 0x10 * 0x10);
  }

  lemma MergedBytes(val: u32, was: u32, b3: byte)
    requires was / 0x100_0000 == b3
    ensures Bytes32(Merged32(val, was)) ==
            [val % 0x100, val / 0x100 % 0x100, val / 0x1_0000 % 0x100, val / 0x100_0000 % 0x10 + b3 / 0x10 * 0x10]
  {
    var d := Bytes32(val);
    assert d == [val % 0x100, val / 0x100 % 0x100, val / 0x1_0000 % 0x100, val / 0x100_0000];
    hide Bytes32, Merged32;
    MergedDigits(d[0], d[1], d[2], d[3], val, was, b3);
    BytesOfWord(d[0], d[1], d[2], d[3] % 0x10 + b3 / 0x10 * 0x10);
  }

  lemma MergedDigits(d0: byte, d1: byte, d2: byte, d3: byte, val: u32, was: u32, b3: byte)
    requires val == Word32(d0, d1, d2, d3) && was / 0x100_0000 == b3
    ensures Merged32(val, was) == d0 + 0x100 * d1 + 0x1_0000 * d2 + 0x100_0000 * (d3 % 0x10 + b3 / 0x10 * 0x10)
  {
    ShiftedTwice(was);
    Cut28(d0, d1, d2, d3);
  }

  lemma TopByte(b0: byte, b1: byte, b2: byte, b3: byte)
    ensures Word32(b0, b1, b2, b3) / 0x100_0000 == b3
  {
    Arith.DivModUnique(Word32(b0, b1, b2, b3), 0x100_0000, b3, b0 + 0x100 * b1 + 0x1_0000 * b2);
  }

  lemma SpliceFour(tab: seq<byte>, i: nat, b0: byte, b1: byte, b2: byte, b3: byte)
    requires i + 4 <= |tab|
    ensures Splice(tab, i, [b0, b1, b2, b3]) == tab[i := b0][i + 1 := b1][i + 2 := b2][i + 3 := b3]
  {
  }

  lemma ShiftedTwice(x: u32)
    ensures x / 0x1000_0000 == x / 0x100_0000 / 0x10
  {
    Arith.ModSplit(x, 0x100_0000, 0x10);
  }

  /** The first byte put_fat stores for a 12-bit entry, over the byte `was`. */
  function Low12(c: nat, val: u32, was: byte): (r: byte)
    ensures c % 2 == 1 ==> r % 16 == was % 16
  {
    if c % 2 == 1 then was % 16 + (val % 16) * 16 else val % 256
  }

  /** The second byte put_fat stores for a 12-bit entry, over the byte `was`. */
  function High12(c: nat, val: u32, was: byte): (r: byte)
    ensures c % 2 == 0 ==> r / 16 == was / 16
  {
    if c % 2 == 1 then (val / 16) % 256 else was / 16 * 16 + (val / 256) % 16
  }

  /** From `tab` to `tab'` the 12 bits of entry `c` have become those of `val`, and no other bit has changed. */
  ghost predicate Holds12(tab: seq<byte>, c: nat, val: u32, tab': seq<byte>) {
    var i := c * 3 / 2;
    && i + 1 < |tab|
    && var b0: int, b1: int := tab[i], tab[i + 1];
       if c % 2 == 0 then tab' == tab[i := val % 0x100][i + 1 := val / 0x100 % 0x10 + b1 / 0x10 * 0x10]
       else tab' == tab[i := b0 % 0x10 + val % 0x10 * 0x10][i + 1 := val / 0x10 % 0x100]
  }

  /** The table after put_fat has stored both bytes of a 12-bit entry. */
  lemma Written12(tab: seq<byte>, tab': seq<byte>, tab'': seq<byte>, c: nat, val: u32)
    requires EntryStart(Fat12, c) + 1 < |tab|
    requires
      var i := EntryStart(Fat12, c);
      tab' == tab[i := Low12(c, val, tab[i])] && tab'' == tab'[i + 1 := High12(c, val, tab'[i + 1])]
    ensures Holds12(tab, c, val, tab'')
  {
    assert c == c / 2 * 2 + c % 2;
  }

  /** The value of a 12-bit entry when only its first byte has been stored. */
  function HalfWritten(c: nat, val: u32, was: u32): (r: u32)
    requires was < 0x1000
    ensures r / 0x100 == was / 0x100
  {
    if c % 2 == 1 then was / 16 * 16 + val % 16 else was / 0x100 * 0x100 + val % 0x100
  }

  lemma FirstByteOnly(c: nat, val: u32, lo: byte, hi: byte)
    ensures Pick12(c, lo, hi) < 0x1000
    ensures Pick12(c, Low12(c, val, lo), hi) == HalfWritten(c, val, Pick12(c, lo, hi))
  {
    if c % 2 == 1 {
      var low := Low12(c, val, lo);
      Arith.DivModUnique(low, 16, val % 16, lo % 16);
      Arith.DivModUnique(lo / 16 + 16 * hi, 16, hi, lo / 16);
    } else {
      Arith.DivModUnique(lo + 256 * (hi % 16), 256, hi % 16, lo);
    }
  }

  /** The two bytes of entry `c` are in different sectors. */
  ghost predicate Straddles(c: nat) {
    EntryStart(Fat12, c) % SS == SS - 1
  }

  /** What a failed attempt to store `val` in 12-bit entry `c` may leave: the old value `was`, or half of the new
      one, and that only if the entry straddles two sectors. */
  ghost predicate LeftBehind(c: nat, val: u32, was: int, now: int) {
    now == was || (Straddles(c) && 0 <= was < 0x1000 && now == HalfWritten(c, val, was))
  }

  lemma Halves(c: nat, val: u32, was: int)
    ensures LeftBehind(c, val, was, was)
    ensures 0 <= was < 0x1000 && (c + c / 2 + 1) / SS != (c + c / 2) / SS ==>
              LeftBehind(c, val, was, HalfWritten(c, val, was))
  {
    hide HalfWritten;
  }

  /** An entry that holds the usual end mark and can be half written is an end mark when it is, whatever
      cluster was to be written, if and only if the table has at most 0xF00 entries. */
  lemma HalfWrittenEnd(nFatEnt: nat)
    ensures nFatEnt <= 0xF00 <==>
            forall c: nat, val: u32 :: 2 <= c < nFatEnt && Straddles(c) && 2 <= val < nFatEnt ==>
                HalfWritten(c, val, 0xFFF) >= nFatEnt
  {
    if nFatEnt > 0xF00 {
      assert Straddles(682) && HalfWritten(682, 0x300, 0xFFF) == 0xF00;
    }
  }

  lemma Pick12RoundTrip(c: nat, val: u32, b0: byte, b1: byte)
    ensures Pick12(c, Low12(c, val, b0), High12(c, val, b1)) == val % 0x1000
  {
    Arith.ModSplit(val, 16, 256);
    Arith.ModSplit(val, 256, 16);
  }

  /** Storing the first byte of 12-bit entry `c` leaves every other entry alone, the one that
      shares the byte included. */
  lemma FirstHalf12(tab: seq<byte>, c: nat, val: u32, fat: seq<int>)
    requires Decodes(Fat12, tab, fat) && c < |fat| && Fits(Fat12, tab, c)
    ensures
      var i := EntryStart(Fat12, c);
      var tab' := tab[i := Low12(c, val, tab[i])];
      Decodes(Fat12, tab', fat[c := Entry(Fat12, tab', c)])
  {
    var i := EntryStart(Fat12, c);
    forall d | 0 <= d < |fat| && d != c
      ensures Fits(Fat12, tab, d)
      ensures EntryStart(Fat12, d) != i
      ensures EntryStart(Fat12, d) + 1 == i ==> c % 2 == 1 && d % 2 == 0
    {
      assert Fits(Fat12, tab, d);
    }
  }

  lemma SecondHalf12(tab: seq<byte>, c: nat, val: u32, fat: seq<int>)
    requires Decodes(Fat12, tab, fat) && c < |fat| && Fits(Fat12, tab, c)
    requires
      var b := tab[EntryStart(Fat12, c)];
      exists was: byte :: b == Low12(c, val, was)
    ensures
      var i := EntryStart(Fat12, c) + 1;
      Decodes(Fat12, tab[i := High12(c, val, tab[i])], fat[c := Masked(Fat12, val)])
  {
    var i := EntryStart(Fat12, c) + 1;
    var was: byte :| tab[i - 1] == Low12(c, val, was);
    Pick12RoundTrip(c, val, was, tab[i]);
    forall d | 0 <= d < |fat| && d != c
      ensures Fits(Fat12, tab, d)
      ensures EntryStart(Fat12, d) + 1 != i
      ensures EntryStart(Fat12, d) == i ==> c % 2 == 0 && d % 2 == 1
    {
      assert Fits(Fat12, tab, d);
    }
  }

  lemma Store16(tab: seq<byte>, c: nat, val: u32, fat: seq<int>)
    requires Decodes(Fat16, tab, fat) && c < |fat| && Fits(Fat16, tab, c)
    ensures Decodes(Fat16, Splice(tab, EntryStart(Fat16, c), Bytes16(val)), fat[c := Masked(Fat16, val)])
  {
    var tab' := Splice(tab, EntryStart(Fat16, c), Bytes16(val));
    forall d | 0 <= d < |fat|
      ensures Fits(Fat16, tab', d) && Entry(Fat16, tab', d) == fat[c := Masked(Fat16, val)][d]
    {
      assert Fits(Fat16, tab, d);
    }
  }

  /** FAT32: besides the other entries, the top four bits of the entry's own word survive. */
  lemma Store32(tab: seq<byte>, c: nat, val: u32, was: u32, fat: seq<int>)
    requires Decodes(Fat32, tab, fat) && c < |fat| && Fits(Fat32, tab, c)
    ensures
      var tab' := Splice(tab, EntryStart(Fat32, c), Bytes32(Merged32(val, was)));
      && Decodes(Fat32, tab', fat[c := Masked(Fat32, val)])
      && tab'[EntryStart(Fat32, c) + 3] / 16 == was / 0x1000_0000
  {
    hide Bytes32, Merged32;
    var b := Bytes32(Merged32(val, was));
    var tab' := Splice(tab, EntryStart(Fat32, c), b);
    assert tab'[c * 4] == b[0] && tab'[c * 4 + 1] == b[1] && tab'[c * 4 + 2] == b[2] && tab'[c * 4 + 3] == b[3];
    TopByte(b[0], b[1], b[2], b[3]);
    ShiftedTwice(Merged32(val, was));
    forall d | 0 <= d < |fat|
      ensures Fits(Fat32, tab', d) && Entry(Fat32, tab', d) == fat[c := Masked(Fat32, val)][d]
    {
      assert Fits(Fat32, tab, d);
      if d != c {
        SameWord(tab, tab', c, d, b);
      }
    }
  }

  lemma SameWord(tab: seq<byte>, tab': seq<byte>, c: nat, d: nat, b: seq<byte>)
    requires c != d && |b| == 4 && c * 4 + 4 <= |tab| && d * 4 + 4 <= |tab| && tab' == Splice(tab, c * 4, b)
    ensures |tab'| == |tab| && Dword(tab', d * 4) == Dword(tab, d * 4)
  {
  }

  /** A 16- or 32-bit entry as read from offset `o` of its sector. */
  function EntryIn(t: FatType, sector: seq<byte>, o: nat): int
    requires t != Fat12 && o + EntryWidth(t) <= |sector|
  {
    if t == Fat16 then Word16(sector[o], sector[o + 1]) else Dword(sector, o) % 0x1000_0000
  }

  /** Entries of 2 or 4 bytes do not straddle sectors. */
  lemma EntryInSector(t: FatType, v: seq<Sector>, base: nat, n: nat, e: nat)
    requires t != Fat12 && base + n <= |v| && Fits(t, Flat(v, base, n), e)
    ensures
      var b := EntryStart(t, e);
      && base + b / SS < |v| && b / SS < n
      && b % SS + EntryWidth(t) <= SS
      && Entry(t, Flat(v, base, n), e) == EntryIn(t, v[base + b / SS], b % SS)
  {
    var b := EntryStart(t, e);
    var k, o := b / SS, b % SS;
    if t == Fat16 {
      Aligned(e, 2, SS / 2);
    } else {
      Aligned(e, 4, SS / 4);
      FlatAt(v, base, n, k, o + 2);
      FlatAt(v, base, n, k, o + 3);
    }
    FlatAt(v, base, n, k, o);
    FlatAt(v, base, n, k, o + 1);
  }

  /** Entries of `w` bytes do not straddle sectors of `n` entries. */
  lemma Aligned(c: nat, w: nat, n: nat)
    requires w * n == SS && w > 0 && n > 0
    ensures c * w / SS == c / n
    ensures c * w % SS == c % n * w <= SS - w
    ensures c * w == c / n * SS + c % n * w
  {
    assert c * w == (c / n * n + c % n) * w == c / n * (w * n) + c % n * w;
    Arith.MulMono(c % n, n - 1, w);
    Arith.MulMono(0, c % n, w);
    Arith.DivModUnique(c * w, SS, c / n, c % n * w);
  }
}
