/** mount_volume, past the search for the volume: the geometry of a FAT12, FAT16 or FAT32 volume from
    its boot sector (FAT32 File System Specification 1.03, sections "Boot Sector and BPB" and
    "FAT Type Determination"). */
module Mount {
  import opened Words
  import opened FatLayout
  import opened Geometry
  import Arith

  const MAX_FAT12: int := 0xFF5
  const MAX_FAT16: int := 0xFFF5
  const MAX_FAT32: int := 0x0FFF_FFF5
  const ENTRIES_PER_SECTOR: int := 16   // directory entries of 32 bytes

  /** The fields of the boot sector. */
  function WordAt(win: Sector, i: nat): (r: int)
    requires i + 2 <= SS
    ensures 0 <= r < 0x10000
  {
    Word16(win[i], win[i + 1])
  }

  function BytesPerSector(win: Sector): int { WordAt(win, 11) }
  function SectorsPerCluster(win: Sector): byte { win[13] }
  function ReservedSectors(win: Sector): nat { WordAt(win, 14) }
  function NumFats(win: Sector): byte { win[16] }
  function RootEntries(win: Sector): nat { WordAt(win, 17) }
  function TotalSectors(win: Sector): u32 { if WordAt(win, 19) == 0 then Dword(win, 32) else WordAt(win, 19) }
  function FatSectors(win: Sector): u32 { if WordAt(win, 22) == 0 then Dword(win, 36) else WordAt(win, 22) }
  function Version32(win: Sector): int { WordAt(win, 42) }

  function FatArea(win: Sector): nat {
    Arith.MulMono(0, FatSectors(win), NumFats(win));
    FatSectors(win) * NumFats(win)
  }

  /** Sectors before the data: reserved sectors, FATs, root directory. */
  function SystemArea(win: Sector): nat {
    ReservedSectors(win) + FatArea(win) + RootEntries(win) / ENTRIES_PER_SECTOR
  }

  function Clusters(win: Sector, system: int): int
    requires SectorsPerCluster(win) != 0
  {
    (TotalSectors(win) - system) / SectorsPerCluster(win)
  }

  /** Sectors of all clusters. */
  function DataSectors(win: Sector, system: int): int
    requires SectorsPerCluster(win) != 0
  {
    SectorsPerCluster(win) * Clusters(win, system)
  }

  /** The type of a volume is determined by its number of clusters alone. */
  function TypeFor(nclst: int): FatType {
    if nclst <= MAX_FAT12 then Fat12 else if nclst <= MAX_FAT16 then Fat16 else Fat32
  }

  /** A boot sector describes a volume whose data starts after `system` sectors. */
  ghost predicate Describes(win: Sector, system: int) {
    && BytesPerSector(win) == SS
    && NumFats(win) in {1, 2}
    && SectorsPerCluster(win) in {1, 2, 4, 8, 16, 32, 64, 128}
    && RootEntries(win) % ENTRIES_PER_SECTOR == 0
    && ReservedSectors(win) != 0
    && system <= TotalSectors(win)
    && 1 <= Clusters(win, system) <= MAX_FAT32
    && (if TypeFor(Clusters(win, system)) == Fat32 then Version32(win) == 0 && RootEntries(win) == 0
        else RootEntries(win) != 0)
    && var t := TypeFor(Clusters(win, system));
       EntryStart(t, Clusters(win, system) + 1) + EntryWidth(t) <= FatSectors(win) * SS
  }

  /** All regions of the volume lie, one after the other, between its first and its last sector, and their
      sectors have 32-bit numbers. */
  ghost predicate Inside(g: Geometry, bsect: int, tsect: int) {
    && g.Sound()
    && bsect < g.fatbase
    && g.End() <= bsect + tsect
    && g.End() <= TWO32
  }

  /** The sum of the sizes of the regions, and the number of the sector behind the last one, fit 32 bits. */
  ghost predicate NoWrap(win: Sector, bsect: int)
    requires SectorsPerCluster(win) != 0
  {
    && SystemArea(win) < TWO32
    && bsect + SystemArea(win) + DataSectors(win, SystemArea(win)) <= TWO32
  }

  /** Where the root directory is: the first of its sectors, or (FAT32) its first cluster. */
  ghost predicate RootAt(win: Sector, g: Geometry, dirbase: int) {
    if g.fsType == Fat32 then dirbase == Dword(win, 44)
    else dirbase == g.FatsEnd() && dirbase + RootEntries(win) / ENTRIES_PER_SECTOR == g.database
  }

  lemma PowerOfTwoBits(c: bv8)
    ensures c != 0 && c & (c - 1) == 0 <==> c in {1, 2, 4, 8, 16, 32, 64, 128}
  {
  }

  /** The code's test for a power of two. */
  predicate PowerOfTwo(c: byte)
    ensures PowerOfTwo(c) <==> c in {1, 2, 4, 8, 16, 32, 64, 128}
  {
    PowerOfTwoBits(c as bv8);
    c != 0 && (c as bv8) & ((c as bv8) - 1) == 0
  }

  /** The size of the FAT, rounded up to sectors, is exactly what its last entry needs. */
  lemma FatSize(t: FatType, n: nat, fsize: nat)
    requires n >= 1
    ensures
      var szbfat := match t case Fat32 => n * 4 case Fat16 => n * 2 case Fat12 => n * 3 / 2 + n % 2;
      fsize >= (szbfat + (SS - 1)) / SS <==> EntryStart(t, n - 1) + EntryWidth(t) <= fsize * SS
  {
    var szbfat := match t case Fat32 => n * 4 case Fat16 => n * 2 case Fat12 => n * 3 / 2 + n % 2;
    LastEntry(n);
    assert szbfat == EntryStart(t, n - 1) + EntryWidth(t);
    RoundUp(szbfat, fsize);
  }

  lemma LastEntry(n: nat)
    requires n >= 1
    ensures n * 3 / 2 + n % 2 == (n - 1) + (n - 1) / 2 + 2
  {
    var k := n / 2;
    if n % 2 == 0 {
      assert n == 2 * k;
    } else {
      assert n == 2 * k + 1;
    }
  }

  lemma RoundUp(x: nat, f: nat)
    ensures f >= (x + (SS - 1)) / SS <==> f * SS >= x
  {
  }

  /** The FAT part of mount_volume. All sums are taken modulo 2^32, as in the code. An accepted volume
      has its regions in order, inside the volume and below sector 2^32 exactly if no sum has wrapped
      around. */
  method MountFat(win: Sector, bsect: u32) returns (res: FResult, g: Geometry, dirbase: u32)
    ensures res == Ok || res == NoFilesystem
    ensures res == Ok <==> Describes(win, SystemArea(win) % TWO32)
    ensures res == Ok ==> MountedAs(win, bsect, g, dirbase)
    ensures res == Ok ==> (Inside(g, bsect, TotalSectors(win)) <==> NoWrap(win, bsect))
    ensures res == Ok && NoWrap(win, bsect) ==> RootAt(win, g, dirbase) && bsect + TotalSectors(win) < g.End() + g.csize
    ensures res == Ok && bsect + TotalSectors(win) <= TWO32 ==> (NoWrap(win, bsect) <==> SystemArea(win) < TWO32)
  {
    hide BytesPerSector, NumFats, FatSectors, SectorsPerCluster, RootEntries, TotalSectors, ReservedSectors, Version32,
         Inside, NoWrap, RootAt, EntryStart, EntryWidth, PowerOfTwo, SystemArea;
    g, dirbase := Geometry(Fat12, 1, 0, 0, 0, 0, 0), 0;
    if BytesPerSector(win) != SS { return NoFilesystem, g, 0; }
    var fsize := FatSectors(win);
    var nFats := NumFats(win);
    if nFats != 1 && nFats != 2 { return NoFilesystem, g, 0; }
    assert fsize * nFats == FatArea(win);
    var fasize := fsize * nFats % TWO32;
    var csize := SectorsPerCluster(win);
    if csize == 0 || !PowerOfTwo(csize) { return NoFilesystem, g, 0; }
    var rootdir := RootEntries(win);
    if rootdir % ENTRIES_PER_SECTOR != 0 { return NoFilesystem, g, 0; }
    var tsect := TotalSectors(win);
    var nrsv := ReservedSectors(win);
    if nrsv == 0 { return NoFilesystem, g, 0; }
    var sysect := (nrsv + fasize + rootdir / ENTRIES_PER_SECTOR) % TWO32;
    SystemSum(win);
    if tsect < sysect { return NoFilesystem, g, 0; }
    var nclst := (tsect - sysect) / csize;
    if nclst == 0 || nclst > MAX_FAT32 { return NoFilesystem, g, 0; }
    var t := TypeFor(nclst);
    if t == Fat32 {
      if Version32(win) != 0 || rootdir != 0 { return NoFilesystem, g, 0; }
    } else {
      if rootdir == 0 { return NoFilesystem, g, 0; }
    }
    var nFatEnt := nclst + 2;
    var szbfat := match t case Fat32 => nFatEnt * 4 case Fat16 => nFatEnt * 2 case Fat12 => nFatEnt * 3 / 2 + nFatEnt % 2;
    FatSize(t, nFatEnt, fsize);
    if fsize < (szbfat + (SS - 1)) / SS { return NoFilesystem, g, 0; }
    g := Geometry(t, nFats, nFatEnt, csize, fsize, (bsect + nrsv) % TWO32, (bsect + sysect) % TWO32);
    dirbase := if t == Fat32 then Dword(win, 44) else (g.fatbase + fasize) % TWO32;
    RootSum(g.fatbase, fsize * nFats);
    assert Describes(win, sysect);
    RegionsInOrder(win, bsect, g, dirbase);
    if NoWrap(win, bsect) { RootInOrder(win, bsect, g, dirbase); }
    res := Ok;
  }

  /** What mount_volume makes of the boot sector. */
  ghost predicate MountedAs(win: Sector, bsect: u32, g: Geometry, dirbase: u32) {
    var sysect := SystemArea(win) % TWO32;
    && Describes(win, sysect)
    && g == Geometry(TypeFor(Clusters(win, sysect)), NumFats(win), Clusters(win, sysect) + 2, SectorsPerCluster(win),
                     FatSectors(win), (bsect + ReservedSectors(win)) % TWO32, (bsect + sysect) % TWO32)
    && dirbase == if g.fsType == Fat32 then Dword(win, 44) else (g.fatbase + FatArea(win)) % TWO32
  }

  lemma FieldsInBytes(win: Sector)
    ensures
      var b: seq<int> := win;
      && BytesPerSector(win) == b[11] + 0x100 * b[12] && SectorsPerCluster(win) == b[13] && NumFats(win) == b[16]
      && ReservedSectors(win) == b[14] + 0x100 * b[15] && RootEntries(win) == b[17] + 0x100 * b[18]
      && Version32(win) == b[42] + 0x100 * b[43]
      && TotalSectors(win) == (if b[19] + 0x100 * b[20] != 0 then b[19] + 0x100 * b[20]
                               else b[32] + 0x100 * b[33] + 0x1_0000 * b[34] + 0x100_0000 * b[35])
      && FatSectors(win) == (if b[22] + 0x100 * b[23] != 0 then b[22] + 0x100 * b[23]
                             else b[36] + 0x100 * b[37] + 0x1_0000 * b[38] + 0x100_0000 * b[39])
      && Dword(win, 44) == b[44] + 0x100 * b[45] + 0x1_0000 * b[46] + 0x100_0000 * b[47]
      && FatArea(win) == FatSectors(win) * NumFats(win)
      && SystemArea(win) == ReservedSectors(win) + FatArea(win) + RootEntries(win) / 16
  {
  }

  /** The types by the number of clusters; an entry has 12, 16 or 32 bits. */
  lemma TypeInBits(n: int, fsize: nat)
    requires n >= 1
    ensures TypeFor(n) == Fat12 <==> n <= 4085
    ensures TypeFor(n) == Fat16 <==> 4086 <= n <= 65525
    ensures EntryStart(TypeFor(n), n + 1) + EntryWidth(TypeFor(n)) <= fsize * 512 <==>
            (n + 2) * (if n <= 4085 then 12 else if n <= 65525 then 16 else 32) <= fsize * 512 * 8
  {
    assert n + 1 == (n + 1) / 2 * 2 + (n + 1) % 2;
  }

  /** All of it in the bytes of the boot sector, at the offsets of its fields: which volumes are accepted, and what
      is made of them. The entries of a FAT have 12, 16 or 32 bits. */
  lemma InBytes(win: Sector, bsect: u32, g: Geometry, dirbase: u32)
    ensures
      var b: seq<int> := win;
      var bytsPerSec, secPerClus, rsvdSecCnt, numFats := b[11] + 0x100 * b[12], b[13], b[14] + 0x100 * b[15], b[16];
      var rootEntCnt, totSec16, fatSz16 := b[17] + 0x100 * b[18], b[19] + 0x100 * b[20], b[22] + 0x100 * b[23];
      var totSec32 := b[32] + 0x100 * b[33] + 0x1_0000 * b[34] + 0x100_0000 * b[35];
      var fatSz32, fsVer := b[36] + 0x100 * b[37] + 0x1_0000 * b[38] + 0x100_0000 * b[39], b[42] + 0x100 * b[43];
      var totSec, fatSz := if totSec16 != 0 then totSec16 else totSec32, if fatSz16 != 0 then fatSz16 else fatSz32;
      var system := (rsvdSecCnt + fatSz * numFats + rootEntCnt / 16) % 0x1_0000_0000;
      && SystemArea(win) % TWO32 == system
      && (Describes(win, system) <==>
            && bytsPerSec == 512 && numFats in {1, 2} && secPerClus in {1, 2, 4, 8, 16, 32, 64, 128}
            && rootEntCnt % 16 == 0 && rsvdSecCnt != 0 && system <= totSec
            && var n := (totSec - system) / secPerClus;
               && 1 <= n <= 0x0FFF_FFF5
               && (if n <= 65525 then rootEntCnt != 0 else rootEntCnt == 0 && fsVer == 0)
               && (n + 2) * (if n <= 4085 then 12 else if n <= 65525 then 16 else 32) <= fatSz * 512 * 8)
      && (MountedAs(win, bsect, g, dirbase) ==>
            && secPerClus != 0
            && var n := (totSec - system) / secPerClus;
               && (g.fsType == Fat12 <==> 1 <= n <= 4085) && (g.fsType == Fat16 <==> 4086 <= n <= 65525)
               && (g.fsType == Fat32 <==> 65526 <= n <= 0x0FFF_FFF5)
               && g.nFats == numFats && g.nFatEnt == n + 2 && g.csize == secPerClus && g.fsize == fatSz
               && g.fatbase == (bsect + rsvdSecCnt) % 0x1_0000_0000 && g.database == (bsect + system) % 0x1_0000_0000
               && dirbase == if n <= 65525 then (g.fatbase + fatSz * numFats) % 0x1_0000_0000
                             else b[44] + 0x100 * b[45] + 0x1_0000 * b[46] + 0x100_0000 * b[47])
  {
    hide BytesPerSector, SectorsPerCluster, ReservedSectors, NumFats, RootEntries, TotalSectors, FatSectors, Version32,
         FatArea, SystemArea, TypeFor, EntryStart, EntryWidth, WordAt, Dword;
    FieldsInBytes(win);
    var system := SystemArea(win) % TWO32;
    if SectorsPerCluster(win) != 0 && Clusters(win, system) >= 1 {
      TypeInBits(Clusters(win, system), FatSectors(win));
    }
  }

  /** Of what the other functions rely on only the order of the regions is not checked. */
  lemma SoundBut(win: Sector, bsect: u32, g: Geometry, dirbase: u32)
    requires MountedAs(win, bsect, g, dirbase)
    ensures bsect < g.fatbase ==> (g.Sound() <==> g.FatsEnd() <= g.database)
    ensures g.csize == SectorsPerCluster(win) > 0 && g.nFatEnt >= 2 && g.FatsEnd() == g.fatbase + FatArea(win)
    ensures g.End() == g.database + DataSectors(win, SystemArea(win) % TWO32)
  {
    hide TotalSectors, FatSectors, WordAt, Clusters, ReservedSectors, RootEntries, NumFats, SectorsPerCluster, FatArea,
         SystemArea;
    TwoFats(win);
  }

  /** What becomes of the regions of a volume that is accepted. */
  lemma RegionsInOrder(win: Sector, bsect: u32, g: Geometry, dirbase: u32)
    requires MountedAs(win, bsect, g, dirbase)
    ensures Inside(g, bsect, TotalSectors(win)) <==> NoWrap(win, bsect)
    ensures NoWrap(win, bsect) ==> bsect + TotalSectors(win) < g.End() + g.csize
    ensures bsect + TotalSectors(win) <= TWO32 ==> (NoWrap(win, bsect) <==> SystemArea(win) < TWO32)
  {
    hide TotalSectors, FatSectors, WordAt, Clusters, ReservedSectors, RootEntries, NumFats, SectorsPerCluster, FatArea,
         DataSectors, Geometry.Sound, Geometry.FatsEnd, Geometry.End;
    NumClusters(win, SystemArea(win) % TWO32);
    SoundBut(win, bsect, g, dirbase);
    Bounded(win);
    Wrapped(bsect, ReservedSectors(win), FatArea(win), RootEntries(win) / ENTRIES_PER_SECTOR, g.fatbase, g.database);
  }

  lemma TwoFats(win: Sector)
    requires NumFats(win) in {1, 2}
    ensures FatArea(win) == if NumFats(win) == 2 then FatSectors(win) + FatSectors(win) else FatSectors(win)
  {
  }

  lemma Bounded(win: Sector)
    ensures 0 <= RootEntries(win) / ENTRIES_PER_SECTOR < 0x1000 && ReservedSectors(win) < 0x10000
  {
  }

  lemma RootInOrder(win: Sector, bsect: u32, g: Geometry, dirbase: u32)
    requires MountedAs(win, bsect, g, dirbase) && NoWrap(win, bsect)
    ensures RootAt(win, g, dirbase)
  {
    hide TotalSectors, FatSectors, WordAt, Clusters, Dword, ReservedSectors, RootEntries, NumFats, SectorsPerCluster,
         FatArea, DataSectors, Geometry.Sound, Geometry.FatsEnd, Geometry.End;
    NumClusters(win, SystemArea(win));
    SoundBut(win, bsect, g, dirbase);
    Bounded(win);
    Wrapped(bsect, ReservedSectors(win), FatArea(win), RootEntries(win) / ENTRIES_PER_SECTOR, g.fatbase, g.database);
  }

  lemma NumClusters(win: Sector, system: int)
    requires SectorsPerCluster(win) != 0 && 0 <= system <= TotalSectors(win)
    ensures DataSectors(win, system) <= TotalSectors(win) - system < DataSectors(win, system) + SectorsPerCluster(win)
    ensures Clusters(win, system) > 0 ==> DataSectors(win, system) > 0
  {
    DataFits(TotalSectors(win) - system, SectorsPerCluster(win), Clusters(win, system));
  }

  /** The FATs end before the data starts exactly if no sum has wrapped around. */
  lemma Wrapped(bsect: nat, nrsv: nat, fats: nat, root: nat, fatbase: nat, database: nat)
    requires bsect < TWO32 && 0 < nrsv < 0x10000 && root < 0x1000
    requires fatbase == (bsect + nrsv) % TWO32 && database == (bsect + (nrsv + fats + root) % TWO32) % TWO32
    ensures bsect < fatbase && fatbase + fats <= database <==> bsect + nrsv + fats + root < TWO32
    ensures bsect + nrsv + fats + root < TWO32 ==> fatbase == bsect + nrsv && database == bsect + nrsv + fats + root
    ensures bsect + nrsv + fats + root < TWO32 ==> (fatbase + fats) % TWO32 == bsect + nrsv + fats
  {
  }

  lemma SystemSum(win: Sector)
    ensures (ReservedSectors(win) + FatArea(win) % TWO32 + RootEntries(win) / ENTRIES_PER_SECTOR) % TWO32
            == SystemArea(win) % TWO32
  {
    hide FatArea, ReservedSectors, RootEntries;
    SameSum(ReservedSectors(win), FatArea(win), RootEntries(win) / ENTRIES_PER_SECTOR);
  }

  lemma RootSum(fatbase: nat, fats: nat)
    ensures (fatbase + fats % TWO32) % TWO32 == (fatbase + fats) % TWO32
  {
  }

  lemma SameSum(a: nat, b: nat, c: nat)
    ensures (a + b % TWO32 + c) % TWO32 == (a + b + c) % TWO32
  {
  }

  lemma DataFits(space: nat, csize: nat, nclst: nat)
    requires csize > 0 && nclst == space / csize
    ensures csize * nclst <= space < csize * nclst + csize
  {
  }

  /** The wrap-around is not caught: two FATs of 0x80000001 sectors each count as two sectors. */
  lemma WrappedFats(win: Sector)
    requires BytesPerSector(win) == SS && SectorsPerCluster(win) == 1 && NumFats(win) == 2 && ReservedSectors(win) == 32
    requires RootEntries(win) == 0 && Version32(win) == 0
    requires WordAt(win, 22) == 0 && Dword(win, 36) == 0x8000_0001
    requires WordAt(win, 19) == 0 && Dword(win, 32) == 0x10_0000
    ensures Describes(win, SystemArea(win) % TWO32) && SystemArea(win) >= TWO32
  {
    assert SystemArea(win) == 32 + 0x1_0000_0002 by {
      hide FatSectors, ReservedSectors, RootEntries, NumFats, WordAt, Dword;
      assert FatArea(win) == 0x8000_0001 * 2;
    }
    assert SystemArea(win) % TWO32 == 34;
    hide SystemArea, FatArea;
    assert Clusters(win, 34) == 0x10_0000 - 34;
  }
}
