/** f_read */
module FileRead {
  import opened Words
  import opened Flatten
  import opened FatLayout
  import opened Geometry
  import opened Volume
  import opened Chains
  import opened FileMap
  import opened FileState
  import opened Effects
  import opened LinkMap
  import opened Files

  /** The cluster that follows cluster `fp.clust`, which has index `k`, from the link map or the FAT:
      the look-up that f_read uses at every cluster boundary. */
  method NextInChain(fp: File, prev: u32, ghost k: nat, ofs: u32) returns (clst: u32)
    requires fp.Ready() && fp.Mapped() && k + 1 < |fp.chain| && prev == fp.chain[k]
    requires ofs / SS / fp.fs.g.csize == k + 1
    modifies fp.fs`winsect, fp.fs`wflag, fp.fs.win, fp.fs.disk
    ensures fp.Ready() && old(fp.fs.disk.faults) <= fp.fs.disk.faults
    ensures Keeps(fp.fs.g, old(fp.fs.Snap()), fp.fs.Snap())
    ensures if clst == DISK_ERROR then old(fp.fs.disk.faults) < fp.fs.disk.faults else clst == fp.chain[k + 1]
    ensures fp.fs.disk.reliable ==> clst != DISK_ERROR
  {
    hide Volume.Valid, Volume.View, Volume.Snap, Holds, InFile, IsChain, Distinct;
    fp.Parts();
    if fp.cltbl != null {
      SameUpdates(fp.fs.g, fp.fs.Snap());
      clst := ClmtClust(fp.fs.g, fp.cltbl, ofs, fp.mapped);
    } else {
      ChainLink(fp.fs.fat, fp.chain, k);
      clst := fp.fs.GetFat(prev);
      fp.fs.Contents();
      HoldsOutsideFats(fp.fs.g, old(fp.fs.View()), fp.fs.View(), fp.chain, fp.dirty, fp.sect, fp.buf[..], fp.content);
      WindowOff(fp.fs.g, fp.fs.View(), fp.chain, old(fp.fs.winsect), fp.fs.winsect);
    }
  }

  lemma ChainLink(fat: seq<int>, chain: seq<int>, k: nat)
    requires IsChainOrEmpty(fat, chain) && k + 1 < |chain|
    ensures 2 <= chain[k] < |fat| && fat[chain[k]] == chain[k + 1]
  {
  }

  /** The look-ahead of f_read for adjacent clusters: how many of `cc` sectors can be read in one
      transfer. It moves the current cluster to the one of the last of them. */
  method LookAhead(fp: File, csect: nat, cc: nat) returns (len: nat)
    requires fp.Ready() && fp.Mapped() && fp.fptr % SS == 0 && CsizeOk(fp.fs.g)
    requires fp.fptr + cc * SS <= fp.objsize && 0 < cc && csect == fp.fptr / SS % fp.fs.g.csize
    requires 0 <= fp.fptr / SS / fp.fs.g.csize < |fp.chain| && fp.clust == fp.chain[fp.fptr / SS / fp.fs.g.csize]
    modifies fp`clust, fp.fs`winsect, fp.fs`wflag, fp.fs.win, fp.fs.disk
    ensures fp.Ready() && old(fp.fs.disk.faults) <= fp.fs.disk.faults
    ensures Spares(fp.fs.g, old(fp.fs.Snap()), fp.fs.Snap(), fp.chain)
    ensures 1 <= len <= cc && InRun(fp.fs.g, fp.chain, fp.fptr / SS, len)
    ensures CursorAt(fp.fs.g, fp.chain, fp.fptr + len * SS, fp.clust)
  {
    hide Volume.Valid, Volume.View, Volume.Snap, Holds, InFile, IsChain, File.Ready, Spares, Keeps, File.Mapped, Ahead,
         InRun, Distinct, CursorIndex, CursorAt, IsChainOrEmpty, Mappable;
    fp.Parts();
    fp.Capacity();
    SparesSame(fp.fs.g, fp.fs.Snap(), fp.chain);
    ghost var n := fp.fptr / SS;
    ghost var k, j := n / fp.fs.g.csize, 0;
    var ccs: nat := fp.fs.g.csize;
    AheadStart(fp.fs.g, fp.chain, n, cc);
    var nextclst := fp.clust;
    while csect + cc > ccs
      invariant fp.Ready() && fp.Mapped() && old(fp.fs.disk.faults) <= fp.fs.disk.faults
      invariant Spares(fp.fs.g, old(fp.fs.Snap()), fp.fs.Snap(), fp.chain)
      invariant 0 <= k + j < |fp.chain| && nextclst == fp.clust == fp.chain[k + j]
      invariant csect < fp.fs.g.csize <= ccs && Ahead(fp.fs.g, fp.chain, n, cc, j, ccs)
      decreases |fp.chain| - j
    {
      var prevclst := nextclst;
      ghost var s := fp.fs.Snap();
      AheadInside(fp.fs.g, fp.chain, n, cc, j, ccs, fp.objsize);
      nextclst := NextInChain(fp, prevclst, k + j, fp.fptr + ccs * SS);
      SparesKeeps(fp.fs.g, s, fp.fs.Snap(), fp.chain);
      SparesTrans(fp.fs.g, old(fp.fs.Snap()), s, fp.fs.Snap(), fp.chain);
      if nextclst != prevclst + 1 { break; }
      AheadStep(fp.fs.g, fp.chain, n, cc, j, ccs);
      ccs := ccs + fp.fs.g.csize;
      fp.clust := nextclst;
      j := j + 1;
    }
    len := if csect + cc > ccs then ccs - csect else cc;
    AheadDone(fp, n, cc, j, ccs, len);
  }

  lemma AheadDone(fp: File, n: nat, cc: nat, j: nat, ccs: nat, len: nat)
    requires fp.Ready() && fp.fptr == n * SS && Ahead(fp.fs.g, fp.chain, n, cc, j, ccs) && cc > 0
    requires len == if n % fp.fs.g.csize + cc > ccs then ccs - n % fp.fs.g.csize else cc
    requires fp.clust == fp.chain[n / fp.fs.g.csize + j]
    ensures 1 <= len <= cc && InRun(fp.fs.g, fp.chain, n, len)
    ensures CursorAt(fp.fs.g, fp.chain, fp.fptr + len * SS, fp.clust)
  {
    hide File.Ready, Holds, InRun, Volume.Valid, CursorIndex;
    AheadEnd(fp.fs.g, fp.chain, n, cc, j, ccs, len);
    assert (n + len) * SS == fp.fptr + len * SS;
  }

  /** The start of a pass through f_read's loop on a sector boundary: makes `fp.clust` the cluster of
      the next byte. */
  method EnterCluster(fp: File) returns (res: FResult)
    requires fp.Valid() && fp.Mapped() && fp.fptr % SS == 0 && fp.fptr < fp.objsize
    modifies fp`clust, fp.fs`winsect, fp.fs`wflag, fp.fs.win, fp.fs.disk
    ensures fp.fs.Valid() && old(fp.fs.disk.faults) <= fp.fs.disk.faults
    ensures Spares(fp.fs.g, old(fp.fs.Snap()), fp.fs.Snap(), fp.chain)
    ensures res == Ok || (res == DiskErr && old(fp.fs.disk.faults) < fp.fs.disk.faults)
    ensures res == Ok ==> fp.Ready() && AtSector(fp, fp.fptr / SS)
  {
    hide Volume.Valid, Volume.View, Volume.Snap, Holds, InFile, IsChain, File.Ready, Spares, Keeps, File.Mapped,
         Distinct, IsChainOrEmpty, Mappable, BufferAt, CsizeOk, SectorCount;
    fp.Parts();
    fp.Capacity();
    SparesSame(fp.fs.g, fp.fs.Snap(), fp.chain);
    ghost var n := fp.fptr / SS;
    ghost var k := n / fp.fs.g.csize;
    SectorsBefore(fp.fs.g, fp.chain, n, fp.objsize);
    ClusterIndex(fp.fs.g, fp.chain, n);
    if n > 0 { CursorStep(fp.fs.g, n); }
    res := Ok;
    var csect := fp.fptr / SS % fp.fs.g.csize;
    if csect == 0 {
      var clst;
      if fp.fptr == 0 {
        clst := fp.sclust;
      } else {
        clst := NextInChain(fp, fp.clust, k - 1, fp.fptr);
        SparesKeeps(fp.fs.g, old(fp.fs.Snap()), fp.fs.Snap(), fp.chain);
      }
      if clst < 2 { return IntErr; }
      if clst == DISK_ERROR { return DiskErr; }
      fp.clust := clst;
    }
  }

  lemma SectorsBefore(g: Geometry, chain: seq<int>, n: nat, size: nat)
    requires n * SS < size <= SectorCount(g, chain) * SS
    ensures n < SectorCount(g, chain)
  {
  }

  /** The current cluster is that of sector `n` of the file. */
  ghost predicate AtSector(fp: File, n: int)
    reads fp`chain, fp`clust, fp.fs
  {
    && fp.fs.g.csize > 0 && AllClusters(fp.fs.g, fp.chain) && 0 <= n < SectorCount(fp.fs.g, fp.chain)
    && 0 <= n / fp.fs.g.csize < |fp.chain| && fp.clust == fp.chain[n / fp.fs.g.csize]
  }

  /** ... and that is device sector `sect`. */
  ghost predicate OnSector(fp: File, n: int, sect: int)
    reads fp`chain, fp`clust, fp.fs
  {
    AtSector(fp, n) && IsSector(fp.fs.g, fp.chain, n, sect)
  }

  /** The bytes from `lo` to `hi` of the file have been put into a buffer. */
  ghost predicate Received(before: seq<byte>, off: nat, content: seq<byte>, lo: nat, hi: nat, after: seq<byte>) {
    lo <= hi <= |content| && off + (hi - lo) <= |before| && after == Splice(before, off, content[lo..hi])
  }

  lemma ReceivedNone(before: seq<byte>, off: nat, content: seq<byte>, p: nat, after: seq<byte>)
    requires Received(before, off, content, p, p, after)
    ensures after == before
  {
    SpliceEmpty(before, off, []);
  }

  /** Whole sectors straight into the caller's buffer. */
  method ReadDirect(fp: File, rbuff: array<byte>, off: nat, sect: u32, cc: nat) returns (res: FResult, rcnt: nat)
    requires fp.Ready() && fp.Mapped() && fp.fptr % SS == 0 && OnSector(fp, fp.fptr / SS, sect)
    requires 0 < cc && fp.fptr + cc * SS <= fp.objsize && off + cc * SS <= rbuff.Length
    requires rbuff != fp.buf && rbuff != fp.fs.win
    modifies fp`clust, fp.fs`winsect, fp.fs`wflag, fp.fs.win, fp.fs.disk, rbuff
    ensures fp.Ready() && old(fp.fs.disk.faults) <= fp.fs.disk.faults
    ensures Spares(fp.fs.g, old(fp.fs.Snap()), fp.fs.Snap(), fp.chain)
    ensures res == Ok || (res == DiskErr && old(fp.fs.disk.faults) < fp.fs.disk.faults)
    ensures SS <= rcnt <= cc * SS && rcnt % SS == 0
    ensures res == Ok ==> Received(old(rbuff[..]), off, fp.content, fp.fptr, fp.fptr + rcnt, rbuff[..])
    ensures StandsAt(fp, fp.fptr + rcnt)
  {
    hide Volume.Valid, Volume.View, Volume.Snap, Holds, InFile, IsChain, File.Ready, Spares, Keeps, File.Mapped,
         Distinct, CursorAt, InRun, Flat, IsChainOrEmpty, Mappable, SectorNo;
    fp.Parts();
    fp.Capacity();
    var len := LookAhead(fp, fp.fptr / SS % fp.fs.g.csize, cc);
    rcnt := len * SS;
    ghost var s := fp.fs.Snap();
    BufferAnywhere(fp.fs.g, fp.chain, fp.fptr + rcnt, fp.sect);
    res := ReadRun(fp, rbuff, off, sect, len);
    SparesKeeps(fp.fs.g, s, fp.fs.Snap(), fp.chain);
    SparesTrans(fp.fs.g, old(fp.fs.Snap()), s, fp.fs.Snap(), fp.chain);
  }

  /** The transfer, with a dirty buffer in place of its sector. */
  method ReadRun(fp: File, rbuff: array<byte>, off: nat, sect: u32, len: nat) returns (res: FResult)
    requires fp.Ready() && fp.fptr % SS == 0 && RunAt(fp.fs.g, fp.chain, fp.fptr / SS, len, sect)
    requires fp.fptr + len * SS <= fp.objsize && off + len * SS <= rbuff.Length && rbuff != fp.buf && rbuff != fp.fs.win
    modifies fp.fs.disk`faults, rbuff
    ensures fp.Ready() && old(fp.fs.disk.faults) <= fp.fs.disk.faults
    ensures Keeps(fp.fs.g, old(fp.fs.Snap()), fp.fs.Snap())
    ensures res == Ok || (res == DiskErr && old(fp.fs.disk.faults) < fp.fs.disk.faults)
    ensures res == Ok ==> Received(old(rbuff[..]), off, fp.content, fp.fptr, fp.fptr + len * SS, rbuff[..])
  {
    hide Volume.Valid, Volume.View, Volume.Snap, Holds, InFile, IsChain, IsChainOrEmpty, Mappable, File.Ready, Keeps,
         Distinct, RunAt, Flat, Splice, SectorNo, WithBuffer;
    fp.Parts();
    NoWindow(fp, fp.fptr / SS, len, sect);
    var ok := fp.fs.ReadData(rbuff, off, sect, len);
    if !ok { return DiskErr; }
    ghost var raw := Flat(fp.fs.View(), sect, len);
    FromPieces(old(rbuff[..]), rbuff[..], off, raw);
    fp.Parts();
    WantedBytes(fp.fs.g, fp.fs.View(), fp.chain, fp.dirty, fp.sect, fp.buf[..], fp.content, fp.fptr / SS, len, sect, raw, fp.fptr);
    OverlayDirty(fp, rbuff, off, sect, len, old(rbuff[..]), raw);
    res := Ok;
  }

  /** Replaces one of the sectors read by the buffer, if that holds a newer version of it. */
  method OverlayDirty(fp: File, rbuff: array<byte>, off: nat, sect: u32, len: nat, ghost before: seq<byte>,
                      ghost raw: seq<byte>)
    requires fp.buf.Length == SS && rbuff != fp.buf && |raw| == len * SS && off + |raw| <= |before|
    requires rbuff[..] == Splice(before, off, raw)
    modifies rbuff
    ensures rbuff[..] == Splice(before, off, WithBuffer(raw, len, fp.dirty, Sub32(fp.sect, sect), fp.buf[..]))
  {
    hide Splice, Sub32;
    var d := Sub32(fp.sect, sect);
    if fp.dirty && d < len {
      SpliceWithin(before, off, raw, d * SS, fp.buf[..]);
      CopyInto(rbuff, off + d * SS, fp.buf[..]);
    }
  }

  /** `raw`, the bytes of `len` sectors, with the buffer in place of sector `d`. */
  ghost function WithBuffer(raw: seq<byte>, len: nat, dirty: bool, d: u32, buf: seq<byte>): (r: seq<byte>)
    requires |raw| == len * SS && |buf| == SS
    ensures |r| == |raw|
  {
    if dirty && d < len then Splice(raw, d * SS, buf) else raw
  }

  lemma WantedBytes(g: Geometry, v: seq<Sector>, chain: seq<int>, dirty: bool, sect0: u32, buf: seq<byte>,
                    content: seq<byte>,
                    n: nat, len: nat, sect: u32, raw: seq<byte>, pos: nat)
    requires Holds(g, v, chain, dirty, sect0, buf, content) && |v| <= NO_SECTOR
    requires RunAt(g, chain, n, len, sect) && pos == n * SS && pos + len * SS <= |content|
    requires sect + len <= |v| && raw == Flat(v, sect, len)
    ensures |buf| == SS && |raw| == len * SS
    ensures content[pos..pos + len * SS] == WithBuffer(raw, len, dirty, Sub32(sect0, sect), buf)
  {
    hide AllBytes, RunAt, Flat, Splice, Sub32;
    OffsetTest(sect0, sect, len);
    RunBytes(g, v, chain, dirty, sect0, buf, content, n, len, sect, raw, pos);
  }

  lemma FromPieces(before: seq<byte>, after: seq<byte>, off: nat, bytes: seq<byte>)
    requires |after| == |before| && off + |bytes| <= |before|
    requires after[..off] == before[..off] && after[off + |bytes|..] == before[off + |bytes|..]
    requires after[off..off + |bytes|] == bytes
    ensures after == Splice(before, off, bytes)
  {
    assert after == after[..off] + after[off..off + |bytes|] + after[off + |bytes|..];
  }

  lemma SpliceWithin(s: seq<byte>, off: nat, a: seq<byte>, o: nat, b: seq<byte>)
    requires off + |a| <= |s| && o + |b| <= |a|
    ensures Splice(Splice(s, off, a), off + o, b) == Splice(s, off, Splice(a, o, b))
  {
  }

  lemma NoWindow(fp: File, n: nat, len: nat, sect: nat)
    requires fp.Ready() && RunAt(fp.fs.g, fp.chain, n, len, sect)
    ensures !(sect <= fp.fs.winsect < sect + len)
  {
    hide Volume.Valid, InFile;
    if sect <= fp.fs.winsect < sect + len {
      RunInFile(fp.fs.g, fp.chain, n, len, sect, fp.fs.winsect);
    }
  }

  /** Makes the buffer hold sector `sect` of the file, writing a dirty one back first. */
  method LoadSector(fp: File, sect: u32, ghost n: nat) returns (res: FResult)
    requires fp.Ready() && IsSector(fp.fs.g, fp.chain, n, sect)
    modifies fp`dirty, fp`sect, fp.buf, fp.fs.disk
    ensures fp.fs.Valid() && old(fp.fs.disk.faults) <= fp.fs.disk.faults
    ensures Spares(fp.fs.g, old(fp.fs.Snap()), fp.fs.Snap(), fp.chain)
    ensures res == Ok || (res == DiskErr && old(fp.fs.disk.faults) < fp.fs.disk.faults)
    ensures res == Ok ==> fp.Ready() && fp.sect == sect && SectorKept(fp, old(fp.sect))
    ensures res == Ok && old(fp.sect) == sect ==> fp.dirty == old(fp.dirty) && fp.buf[..] == old(fp.buf[..])
    ensures res == Ok && old(fp.sect) != sect ==>
              !fp.dirty && sect < |old(fp.fs.View())| && fp.buf[..] == old(fp.fs.View())[sect]
  {
    hide Volume.Valid, Volume.View, Volume.Snap, Holds, IsChain, Spares, Keeps, Distinct, Flat, IsChainOrEmpty,
         Mappable;
    SparesSame(fp.fs.g, fp.fs.Snap(), fp.chain);
    res := Ok;
    if fp.sect != sect {
      var ok := Flush(fp);
      if !ok { return DiskErr; }
      ghost var s := fp.fs.Snap();
      fp.Parts();
      assert InFile(fp.fs.g, fp.chain, sect);
      InFileBounds(fp.fs.g, fp.fs.View(), fp.chain, sect);
      ghost var buf0 := fp.buf[..];
      ok := fp.fs.ReadData(fp.buf, 0, sect, 1);
      SparesKeeps(fp.fs.g, s, fp.fs.Snap(), fp.chain);
      SparesTrans(fp.fs.g, old(fp.fs.Snap()), s, fp.fs.Snap(), fp.chain);
      if !ok { return DiskErr; }
      FlatOne(fp.fs.View(), sect);
      assert fp.buf[..] == fp.buf[0..0 + 1 * SS];
      AfterLoad(fp.fs.g, fp.fs.View(), fp.chain, fp.sect, buf0, fp.content, sect, fp.buf[..]);
    }
    fp.sect := sect;
  }

  /** The rest of the current sector, or as much of it as is wanted, from the buffer. */
  method ReadPartial(fp: File, rbuff: array<byte>, off: nat, btr: nat) returns (rcnt: nat)
    requires fp.Ready() && OnSector(fp, fp.fptr / SS, fp.sect)
    requires 0 < btr && fp.fptr + btr <= fp.objsize && off + btr <= rbuff.Length
    requires rbuff != fp.buf && rbuff != fp.fs.win
    modifies rbuff
    ensures 0 < rcnt <= btr
    ensures Received(old(rbuff[..]), off, fp.content, fp.fptr, fp.fptr + rcnt, rbuff[..])
    ensures fp.Ready() && StandsAt(fp, fp.fptr + rcnt)
  {
    hide Volume.Valid, Volume.View, Volume.Snap, Holds, IsChain, InFile, Distinct, Flat, File.Ready, IsChainOrEmpty,
         Mappable, CursorAt, BufferAt, CsizeOk, Splice, SectorCount;
    fp.Parts();
    rcnt := SS - fp.fptr % SS;
    if rcnt > btr {
      rcnt := btr;
    }
    ghost var n, o := fp.fptr / SS, fp.fptr % SS;
    assert n * SS + o == fp.fptr;
    BufferShows(fp.fs.g, fp.fs.View(), fp.chain, fp.dirty, fp.sect, fp.buf[..], fp.content, n, o, rcnt);
    InsidePlace(fp.fs.g, fp.chain, fp.fptr, rcnt, fp.clust, fp.sect);
    assert fp.buf[..][o..o + rcnt] == fp.buf[o..o + rcnt];
    CopyInto(rbuff, off, fp.buf[fp.fptr % SS..fp.fptr % SS + rcnt]);
  }

  /** The part of a pass through f_read's loop for a file pointer on a sector boundary: a direct
      transfer, or (`rcnt` is 0) the next sector in the buffer. */
  method ReadAligned(fp: File, rbuff: array<byte>, off: nat, btr: nat) returns (res: FResult, rcnt: nat)
    requires fp.Valid() && fp.Mapped() && fp.fptr % SS == 0
    requires 0 < btr && fp.fptr + btr <= fp.objsize && off + btr <= rbuff.Length
    requires rbuff != fp.buf && rbuff != fp.fs.win
    modifies fp`clust, fp`sect, fp`dirty, fp.buf, fp.fs`winsect, fp.fs`wflag, fp.fs.win, fp.fs.disk, rbuff
    ensures fp.fs.Valid() && old(fp.fs.disk.faults) <= fp.fs.disk.faults
    ensures Spares(fp.fs.g, old(fp.fs.Snap()), fp.fs.Snap(), fp.chain)
    ensures res == Ok || (res == DiskErr && old(fp.fs.disk.faults) < fp.fs.disk.faults)
    ensures res == Ok ==> fp.Ready() && rcnt <= btr && SectorKept(fp, old(fp.sect))
    ensures res == Ok && rcnt == 0 ==> OnSector(fp, fp.fptr / SS, fp.sect)
    ensures res == Ok && rcnt > 0 ==> StandsAt(fp, fp.fptr + rcnt)
    ensures res == Ok ==> Received(old(rbuff[..]), off, fp.content, fp.fptr, fp.fptr + rcnt, rbuff[..])
  {
    hide Volume.Valid, Volume.View, Volume.Snap, Holds, IsChain, InFile, Distinct, Flat, File.Ready, Spares,
         File.Mapped, CursorAt, AtSector, IsSector, IsChainOrEmpty, Mappable, SectorNo, BufferAt, CsizeOk, SectorCount,
         Splice, Geometry.FatsEnd;
    fp.Capacity();
    res := EnterCluster(fp);
    if res != Ok { return res, 0; }
    fp.Parts();
    ghost var s := fp.fs.Snap();
    var sect := CurrentSector(fp);
    rcnt := 0;
    if sect == 0 { return IntErr, rcnt; }
    var cc := btr / SS;
    if cc > 0 {
      res, rcnt := ReadDirect(fp, rbuff, off, sect, cc);
    } else {
      res := LoadSector(fp, sect, fp.fptr / SS);
      SpliceEmpty(old(rbuff[..]), off, fp.content[fp.fptr..fp.fptr]);
    }
    SparesTrans(fp.fs.g, old(fp.fs.Snap()), s, fp.fs.Snap(), fp.chain);
  }

  /** One pass through f_read's loop. */
  method ReadStep(fp: File, rbuff: array<byte>, off: nat, btr: nat) returns (res: FResult, rcnt: nat)
    requires fp.Valid() && fp.Mapped()
    requires 0 < btr && fp.fptr + btr <= fp.objsize && off + btr <= rbuff.Length
    requires rbuff != fp.buf && rbuff != fp.fs.win
    modifies fp`clust, fp`sect, fp`dirty, fp`fptr, fp.buf, fp.fs`winsect, fp.fs`wflag, fp.fs.win, fp.fs.disk, rbuff
    ensures fp.fs.Valid() && old(fp.fs.disk.faults) <= fp.fs.disk.faults
    ensures Spares(fp.fs.g, old(fp.fs.Snap()), fp.fs.Snap(), fp.chain)
    ensures res == Ok || (res == DiskErr && old(fp.fs.disk.faults) < fp.fs.disk.faults)
    ensures res == Ok ==>
              fp.Valid() && fp.Mapped() && 0 < rcnt <= btr && fp.fptr == old(fp.fptr) + rcnt
                  && SectorKept(fp, old(fp.sect))
    ensures res == Ok ==> Received(old(rbuff[..]), off, fp.content, old(fp.fptr), fp.fptr, rbuff[..])
  {
    hide Volume.Valid, Volume.View, Volume.Snap, Holds, IsChain, InFile, Distinct, Flat, File.Ready, Spares, CursorAt,
         BufferAt, AtSector, OnSector, Splice, IsChainOrEmpty, Mappable, SectorNo, CsizeOk, SectorCount, AllClusters,
         Received;
    fp.Parts();
    fp.Capacity();
    rcnt := 0;
    SparesSame(fp.fs.g, fp.fs.Snap(), fp.chain);
    if fp.fptr % SS == 0 {
      res, rcnt := ReadAligned(fp, rbuff, off, btr);
      if res != Ok { return; }
    } else {
      InsideSector(fp);
    }
    if rcnt == 0 {
      if fp.fptr % SS == 0 { ReceivedNone(old(rbuff[..]), off, fp.content, fp.fptr, rbuff[..]); }
      rcnt := ReadPartial(fp, rbuff, off, btr);
    }
    fp.fptr := fp.fptr + rcnt;
    res := Ok;
  }

  /** The device sector of the file pointer, from the current cluster. */
  method CurrentSector(fp: File) returns (sect: u32)
    requires fp.Ready() && fp.fptr % SS == 0 && AtSector(fp, fp.fptr / SS)
    ensures OnSector(fp, fp.fptr / SS, sect) && sect != 0
  {
    hide Volume.Valid, Volume.View, Holds, IsChain, InFile, Distinct, Flat, File.Ready, SectorCount, CsizeOk,
         IsChainOrEmpty, Mappable, IsSector;
    fp.Parts();
    SectorOf(fp.fs.g, fp.fs.View(), fp.chain, fp.fptr / SS, fp.clust);
    sect := fp.fs.ClusterToSector(fp.clust);
    if sect != 0 {
      sect := sect + fp.fptr / SS % fp.fs.g.csize;
    }
  }

  lemma SectorOf(g: Geometry, v: seq<Sector>, chain: seq<int>, n: nat, clust: int)
    requires Mappable(g, v, chain) && n < SectorCount(g, chain) && n / g.csize < |chain| && clust == chain[n / g.csize]
    ensures 0 < g.ClusterSector(clust) && g.ClusterSector(clust) + n % g.csize < |v|
    ensures IsSector(g, chain, n, g.ClusterSector(clust) + n % g.csize)
  {
    SectorsInside(g, chain);
    assert SectorNo(g, chain, n) == g.ClusterSector(clust) + n % g.csize;
  }

  lemma InsideSector(fp: File)
    requires fp.Valid() && fp.fptr % SS != 0
    ensures OnSector(fp, fp.fptr / SS, fp.sect)
  {
    CursorInside(fp.fs.g, fp.fptr, fp.fptr / SS);
  }

  /** f_read: the next `btr` bytes of the file, or all that are left. */
  method Read(fp: File, rbuff: array<byte>, btr: u32) returns (res: FResult, br: u32)
    requires fp.fs.Valid() && (fp.err == Ok ==> fp.Valid() && fp.Mapped())
    requires btr <= rbuff.Length && rbuff != fp.buf && rbuff != fp.fs.win
    modifies fp`clust, fp`sect, fp`dirty, fp`fptr, fp`err, fp.buf, fp.fs`winsect, fp.fs`wflag, fp.fs.win, fp.fs.disk,
             rbuff
    ensures fp.fs.Valid() && (fp.err == Ok ==> fp.Valid() && fp.Mapped()) && old(fp.fs.disk.faults) <= fp.fs.disk.faults
    ensures Spares(fp.fs.g, old(fp.fs.Snap()), fp.fs.Snap(), fp.chain)
    ensures old(fp.err) != Ok ==>
              res == old(fp.err) && br == 0 && unchanged(fp, fp.buf, fp.fs, fp.fs.win, fp.fs.disk, rbuff)
    ensures old(fp.err) == Ok && !fp.canRead ==>
              res == Denied && br == 0 && unchanged(fp, fp.buf, fp.fs, fp.fs.win, fp.fs.disk, rbuff)
    ensures br <= btr
    ensures old(fp.err) == Ok && fp.canRead ==>
              res == fp.err && (res == Ok || (res == DiskErr && old(fp.fs.disk.faults) < fp.fs.disk.faults))
    ensures res == Ok ==> br as int == if btr <= fp.objsize - old(fp.fptr) then btr else fp.objsize - old(fp.fptr)
    ensures res == Ok ==> fp.fptr == old(fp.fptr) + br && SectorKept(fp, old(fp.sect))
    ensures res == Ok ==> rbuff[..] == Splice(old(rbuff[..]), 0, fp.content[old(fp.fptr)..fp.fptr])
  {
    hide Volume.Valid, Volume.View, Volume.Snap, Spares, File.Ready, CursorAt, BufferAt, File.Mapped, Splice, CsizeOk,
         SectorCount, AllClusters;
    br := 0;
    SparesSame(fp.fs.g, fp.fs.Snap(), fp.chain);
    if fp.err != Ok { return fp.err, br; }
    if !fp.canRead { return Denied, br; }
    fp.Capacity();
    var left: nat := if btr <= fp.objsize - fp.fptr then btr else fp.objsize - fp.fptr;
    ghost var total, start := left, fp.fptr;
    SpliceEmpty(rbuff[..], 0, fp.content[start..start]);
    while left > 0
      invariant fp.fs.Valid() && fp.Valid() && fp.Mapped() && fp.err == Ok
                && old(fp.fs.disk.faults) <= fp.fs.disk.faults
      invariant Spares(fp.fs.g, old(fp.fs.Snap()), fp.fs.Snap(), fp.chain)
      invariant br + left == total <= btr && fp.fptr == start + br && fp.fptr + left <= fp.objsize
      invariant SectorKept(fp, old(fp.sect))
      invariant rbuff[..] == Splice(old(rbuff[..]), 0, fp.content[start..fp.fptr])
    {
      ghost var s := fp.fs.Snap();
      ghost var pos := fp.fptr;
      var rcnt;
      res, rcnt := ReadStep(fp, rbuff, br, left);
      SparesTrans(fp.fs.g, old(fp.fs.Snap()), s, fp.fs.Snap(), fp.chain);
      if res != Ok {
        fp.err := res;
        return;
      }
      ReadMore(old(rbuff[..]), fp.content, start, pos, fp.fptr);
      left := left - rcnt;
      br := br + rcnt;
    }
    res := Ok;
  }

  lemma ReadMore(before: seq<byte>, content: seq<byte>, start: nat, pos: nat, end: nat)
    requires start <= pos <= end <= |content| && end - start <= |before|
    ensures Splice(Splice(before, 0, content[start..pos]), pos - start, content[pos..end]) == Splice(before, 0, content[start..end])
  {
    hide Splice;
    SpliceNext(before, 0, content[start..pos], content[pos..end]);
    assert content[start..pos] + content[pos..end] == content[start..end];
  }
}
