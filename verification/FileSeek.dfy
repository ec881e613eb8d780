/** f_lseek */
module FileSeek {
  import opened Words
  import opened FatLayout
  import opened Geometry
  import opened Volume
  import opened Chains
  import opened Allocator
  import opened FileMap
  import opened FileState
  import opened Effects
  import opened LinkMap
  import opened Files
  import opened FileGrow
  import opened FileWrite
  import opened FileFollow
  import opened FileLinks

  const CREATE_LINKMAP: u32 := 0xFFFF_FFFF

  /** What f_lseek is called with: a link map that is one, or room to make one. */
  ghost predicate TableReady(fp: File, ofs: u32)
    reads fp`cltbl, fp`chain, fp`mapped, fp.cltbl
  {
    if fp.cltbl != null && ofs == CREATE_LINKMAP then 1 <= fp.cltbl.Length && fp.cltbl[0] <= fp.cltbl.Length
    else fp.Mapped()
  }

  /** The memory of the link map. */
  ghost function Table(fp: File): seq<u32>
    reads fp`cltbl, fp.cltbl
  {
    if fp.cltbl == null then [] else fp.cltbl[..]
  }

  /** Its first word, which says how many it has, or how many the link map needs. */
  ghost function TableSize(fp: File): u32
    reads fp`cltbl, fp.cltbl
  {
    if fp.cltbl == null || fp.cltbl.Length == 0 then 0 else fp.cltbl[0]
  }

  /** The position f_lseek is to lead to: past the end only in write mode without a link map. */
  ghost function Target(fp: File, ofs: u32): u32
    reads fp`objsize, fp`cltbl
  {
    if ofs > fp.objsize && (fp.cltbl != null || !fp.canWrite) then fp.objsize else ofs
  }

  /** f_lseek, but for the making of link maps. */
  method SeekTo(fp: File, ofs: u32) returns (res: FResult)
    requires fp.Valid() && fp.Mapped()
    modifies fp`fptr, fp`clust, fp`chain, fp`sclust, fp`content, fp`objsize, fp`modified, fp`dirty, fp`sect, fp.buf
    modifies fp.fs`winsect, fp.fs`wflag, fp.fs`fat, fp.fs`lastClst, fp.fs`freeClst, fp.fs`fsiDirty, fp.fs.win,
             fp.fs.disk
    ensures fp.fs.Valid() && old(fp.fs.disk.faults) <= fp.fs.disk.faults
    ensures Advances(fp.fs.g, old(fp.fs.Snap()), old(fp.chain), fp.fs.Snap(), fp.chain)
    ensures old(LookAheadSafe(fp)) ==> LookAheadSafe(fp)
    ensures res == Ok || Excused(fp.fs, old(fp.fs.disk.faults), res)
              || (res == IntErr && fp.cltbl != null && fp.mapped != fp.chain)
    ensures fp.cltbl != null ==> fp.chain == old(fp.chain)
    ensures res == Ok ==> GrownFor(fp.fs.g, old(fp.chain), fp.chain, fp.fptr)
    ensures res == Ok ==> fp.Valid() && fp.Mapped() && old(fp.content) <= fp.content && SectorKept(fp, old(fp.sect))
    ensures res == Ok ==> fp.objsize == if fp.fptr > old(fp.objsize) then fp.fptr else old(fp.objsize)
    ensures res == Ok ==> fp.modified == (old(fp.modified) || fp.objsize > old(fp.objsize))
    ensures res == Ok && fp.fptr != old(Target(fp, ofs)) ==>
              old(fp.objsize) < old(Target(fp, ofs)) && fp.fptr < old(Target(fp, ofs)) && AtEnd(fp) && OutOfRoom(fp)
    ensures res == Ok && old(Target(fp, ofs)) <= old(fp.objsize) ==>
              && fp.fptr == old(Target(fp, ofs)) && fp.chain == old(fp.chain) && fp.content == old(fp.content)
              && Landed(fp.fs.g, old(fp.fs.View()), fp.chain, old(CursorOf(fp)), CursorOf(fp), fp.fptr)
    ensures fp.fs.disk.faults == old(fp.fs.disk.faults) && old(CountExact(fp.fs)) ==> CountExact(fp.fs)
  {
    hide GrownFor, Volume.Valid, Volume.View, Volume.Snap, Spares, Advances, LookAheadSafe, File.Ready, CursorAt,
         BufferAt, Landed, Encodes, CountExact, CsizeOk, AtEnd, OutOfRoom, SectorKept, SectorCount, ClusterPos,
         AllClusters;
    fp.Capacity();
    NotGrown(fp.fs.g, fp.chain, Target(fp, ofs));
    if fp.cltbl != null {
      ghost var s := fp.fs.Snap();
      res := SeekFast(fp, ofs);
      AdvancesSame(fp.fs.g, s, fp.fs.Snap(), fp.chain);
    } else {
      res := SeekNormal(fp, ofs);
    }
    if res == Ok {
      fp.Capacity();
      StandsAtEnd(fp);
      GrownToEnd(fp, old(fp.chain), old(Target(fp, ofs)));
    }
  }

  lemma StandsAtEnd(fp: File)
    requires fp.fs.g.csize > 0
    ensures fp.fptr == ClusterPos(fp.fs.g, |fp.chain|) ==> AtEnd(fp)
  {
  }

  /** f_lseek */
  method Lseek(fp: File, ofs: u32) returns (res: FResult)
    requires fp.fs.Valid() && (fp.err == Ok ==> fp.Valid() && TableReady(fp, ofs))
    modifies fp`fptr, fp`clust, fp`chain, fp`sclust, fp`content, fp`objsize, fp`modified, fp`dirty, fp`sect, fp`err,
             fp`mapped, fp.buf, fp.cltbl
    modifies fp.fs`winsect, fp.fs`wflag, fp.fs`fat, fp.fs`lastClst, fp.fs`freeClst, fp.fs`fsiDirty, fp.fs.win,
             fp.fs.disk
    ensures fp.fs.Valid() && old(fp.fs.disk.faults) <= fp.fs.disk.faults
    ensures fp.err == Ok ==> fp.Valid() && (res == Ok ==> fp.Mapped())
    ensures Advances(fp.fs.g, old(fp.fs.Snap()), old(fp.chain), fp.fs.Snap(), fp.chain)
    ensures old(LookAheadSafe(fp)) ==> LookAheadSafe(fp)
    ensures old(fp.err) != Ok ==> res == old(fp.err) && unchanged(fp, fp.buf, fp.fs, fp.fs.win, fp.fs.disk)
                                  && (fp.cltbl != null ==> unchanged(fp.cltbl))
    ensures old(fp.err) == Ok ==> fp.err == if res == NotEnoughCore then Ok else res
    // CREATE_LINKMAP is 0xFFFF_FFFF
    ensures old(fp.err) == Ok && fp.cltbl != null && ofs == 0xFFFF_FFFF ==>
              && fp.fptr == old(fp.fptr) && fp.content == old(fp.content) && fp.chain == old(fp.chain)
              && (res == Ok || res == DiskErr || res == IntErr || res == NotEnoughCore)
              && (res == DiskErr ==> old(fp.fs.disk.faults) < fp.fs.disk.faults)
              && (res != DiskErr ==> (res == IntErr <==> EndLooksAdjacent(fp.fs.fat, fp.chain)))
              && (res == Ok ==> fp.mapped == fp.chain && MapSize(fp.chain) <= old(TableSize(fp)))
              && (res == NotEnoughCore ==> TableSize(fp) == MapSize(fp.chain) > old(TableSize(fp)))
    // a seek
    ensures old(fp.err) == Ok && !(fp.cltbl != null && ofs == 0xFFFF_FFFF) && res == Ok ==>
              GrownFor(fp.fs.g, old(fp.chain), fp.chain, fp.fptr)
    ensures old(fp.err) == Ok && !(fp.cltbl != null && ofs == 0xFFFF_FFFF) && res != Ok ==>
              Excused(fp.fs, old(fp.fs.disk.faults), res)
                  || (res == IntErr && fp.cltbl != null && fp.mapped != fp.chain)
    ensures old(fp.err) == Ok && !(fp.cltbl != null && ofs == 0xFFFF_FFFF) ==>
              fp.mapped == old(fp.mapped) && Table(fp) == old(Table(fp))
                  && (fp.cltbl != null ==> fp.chain == old(fp.chain))
    ensures old(fp.err) == Ok && !(fp.cltbl != null && ofs == 0xFFFF_FFFF) && res == Ok ==>
              && old(fp.content) <= fp.content && SectorKept(fp, old(fp.sect))
              && fp.objsize == (if fp.fptr > old(fp.objsize) then fp.fptr else old(fp.objsize))
              && fp.modified == (old(fp.modified) || fp.objsize > old(fp.objsize))
              && (fp.fptr != old(Target(fp, ofs)) ==>
                    old(fp.objsize) < old(Target(fp, ofs)) && fp.fptr < old(Target(fp, ofs)) && AtEnd(fp)
                        && OutOfRoom(fp))
    ensures old(fp.err) == Ok && !(fp.cltbl != null && ofs == 0xFFFF_FFFF) && res == Ok
              && old(Target(fp, ofs)) <= old(fp.objsize) ==>
              && fp.fptr == old(Target(fp, ofs)) && fp.chain == old(fp.chain) && fp.content == old(fp.content)
              && Landed(fp.fs.g, old(fp.fs.View()), fp.chain, old(CursorOf(fp)), CursorOf(fp), fp.fptr)
    ensures fp.fs.disk.faults == old(fp.fs.disk.faults) && old(CountExact(fp.fs)) ==> CountExact(fp.fs)
  {
    hide GrownFor, Volume.Valid, Volume.View, Volume.Snap, Holds, InFile, Distinct, Spares, Advances, LookAheadSafe,
         IsChain, IsChainOrEmpty, Mappable, File.Ready, CursorIndex, CursorAt, BufferAt, SectorNo, Placed, Landed,
         Encodes, CountExact, NoneFree, Zeros, CsizeOk, EndLooksAdjacent, RunCount, AtEnd, OutOfRoom, SectorKept;
    AdvancesNot(fp.fs.g, fp.fs.Snap(), fp.chain);
    if fp.err != Ok { return fp.err; }
    if fp.cltbl != null && ofs == CREATE_LINKMAP {
      ghost var s := fp.fs.Snap();
      res := CreateLinkMap(fp);
      AdvancesKeeps(fp, s);
      if res != Ok && res != NotEnoughCore { fp.err := res; }
    } else {
      res := SeekTo(fp, ofs);
      if res != Ok { fp.err := res; }
    }
  }
}
