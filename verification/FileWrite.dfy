/** f_write */
module FileWrite {
  import opened Words
  import opened Flatten
  import opened FatLayout
  import opened Geometry
  import opened Volume
  import opened Chains
  import opened Allocator
  import opened FileMap
  import opened FileState
  import opened Effects
  import opened LinkMap
  import opened Files
  import opened FileRead
  import opened FileGrow

  /** The look-ahead of f_write for adjacent clusters. It stretches the chain if need be. The code takes
      any failure for "no adjacent cluster"; `lost` says that one has destroyed the end mark of the chain. */
  method LookAheadNew(fp: File, csect: nat, cc: nat) returns (len: nat, lost: bool)
    requires fp.Ready() && fp.Mapped() && fp.fptr % SS == 0 && CsizeOk(fp.fs.g)
    requires fp.fptr + cc * SS < TWO32 && 0 < cc && csect == fp.fptr / SS % fp.fs.g.csize
    requires AtSector(fp, fp.fptr / SS)
    modifies fp`clust, fp`chain, fp`sclust
    modifies fp.fs`winsect, fp.fs`wflag, fp.fs`fat, fp.fs`lastClst, fp.fs`freeClst, fp.fs`fsiDirty, fp.fs.win,
             fp.fs.disk
    ensures lost ==> !old(LookAheadSafe(fp)) && old(fp.fs.disk.faults) < fp.fs.disk.faults
    ensures !lost ==>
              fp.Ready() && fp.Mapped() && (old(LookAheadSafe(fp)) ==> LookAheadSafe(fp))
                  && old(fp.fs.disk.faults) <= fp.fs.disk.faults
    ensures !lost ==> Advances(fp.fs.g, old(fp.fs.Snap()), old(fp.chain), fp.fs.Snap(), fp.chain)
    ensures !lost ==> GrownFor(fp.fs.g, old(fp.chain), fp.chain, fp.fptr + cc * SS)
    ensures !lost ==> 1 <= len <= cc && InRun(fp.fs.g, fp.chain, fp.fptr / SS, len)
    ensures !lost ==> CursorAt(fp.fs.g, fp.chain, fp.fptr + len * SS, fp.clust)
    ensures fp.fs.disk.faults == old(fp.fs.disk.faults) && old(CountExact(fp.fs)) ==> CountExact(fp.fs)
  {
    hide Volume.Valid, Volume.View, Volume.Snap, Holds, InFile, IsChain, IsChainOrEmpty, Mappable, File.Ready, Advances,
         File.Mapped, Ahead, InRun, Distinct, CursorIndex, CountExact, NoneFree, CursorAt, LookAheadSafe, GrownFor,
         ClusterPos;
    fp.Parts();
    AdvancesNot(fp.fs.g, fp.fs.Snap(), fp.chain);
    ghost var n := fp.fptr / SS;
    NotGrown(fp.fs.g, fp.chain, fp.fptr + cc * SS);
    ghost var k, j := n / fp.fs.g.csize, 0;
    var ccs: nat := fp.fs.g.csize;
    AheadStart(fp.fs.g, fp.chain, n, cc);
    var nextclst := fp.clust;
    len, lost := cc, false;
    while csect + cc > ccs
      invariant fp.Ready() && fp.Mapped() && old(fp.fs.disk.faults) <= fp.fs.disk.faults
      invariant old(LookAheadSafe(fp)) ==> LookAheadSafe(fp)
      invariant Advances(fp.fs.g, old(fp.fs.Snap()), old(fp.chain), fp.fs.Snap(), fp.chain)
      invariant GrownFor(fp.fs.g, old(fp.chain), fp.chain, fp.fptr + cc * SS)
      invariant 0 <= k + j < |fp.chain| && nextclst == fp.clust == fp.chain[k + j]
      invariant csect < fp.fs.g.csize <= ccs && Ahead(fp.fs.g, fp.chain, n, cc, j, ccs)
      invariant fp.fs.disk.faults == old(fp.fs.disk.faults) && old(CountExact(fp.fs)) ==> CountExact(fp.fs)
      decreases csect + cc - ccs
    {
      var prevclst := nextclst;
      ghost var c := fp.chain;
      nextclst, lost := AheadNew(fp, prevclst, fp.fptr + ccs * SS, n, cc, j, ccs, old(fp.fs.Snap()), old(fp.chain));
      if lost { return; }
      GrownTrans(fp.fs.g, old(fp.chain), c, fp.chain, fp.fptr + cc * SS, fp.fptr + cc * SS);
      if nextclst != prevclst + 1 { break; }
      ccs := ccs + fp.fs.g.csize;
      fp.clust := nextclst;
      j := j + 1;
    }
    len := if csect + cc > ccs then ccs - csect else cc;
    lost := false;
    AheadDone(fp, n, cc, j, ccs, len);
  }

  /** One more cluster for the look-ahead. (`lost` is not in the code, which does not notice.) */
  method AheadNew(fp: File, prev: u32, ofs: int, ghost n: nat, ghost cc: nat, ghost j: nat, ghost ccs: nat,
                  ghost s0: Snapshot, ghost c0: seq<int>) returns (next: u32, lost: bool)
    requires fp.Ready() && fp.Mapped() && CsizeOk(fp.fs.g)
    requires ofs == n * SS + ccs * SS && (n + cc) * SS < TWO32 && n % fp.fs.g.csize + cc > ccs
    requires Ahead(fp.fs.g, fp.chain, n, cc, j, ccs) && prev == fp.chain[n / fp.fs.g.csize + j]
    requires Advances(fp.fs.g, s0, c0, fp.fs.Snap(), fp.chain) && s0.faults <= fp.fs.disk.faults
    modifies fp`chain, fp`sclust
    modifies fp.fs`winsect, fp.fs`wflag, fp.fs`fat, fp.fs`lastClst, fp.fs`freeClst, fp.fs`fsiDirty, fp.fs.win,
             fp.fs.disk
    ensures lost ==> !old(LookAheadSafe(fp)) && old(fp.fs.disk.faults) < fp.fs.disk.faults
    ensures lost ==> HasBrokenOff(old(fp.fs.fat), old(fp.chain), fp.fs.fat)
    ensures !lost ==>
              fp.Ready() && fp.Mapped() && (old(LookAheadSafe(fp)) ==> LookAheadSafe(fp))
                  && old(fp.fs.disk.faults) <= fp.fs.disk.faults
    ensures !lost ==> Advances(fp.fs.g, s0, c0, fp.fs.Snap(), fp.chain)
    ensures !lost ==> GrownFor(fp.fs.g, old(fp.chain), fp.chain, (n + cc) * SS)
    ensures !lost ==> Ahead(fp.fs.g, fp.chain, n, cc, j, ccs) && n / fp.fs.g.csize + j < |fp.chain|
                      && fp.chain[n / fp.fs.g.csize + j] == prev
    ensures !lost && next == prev + 1 ==>
              n / fp.fs.g.csize + j + 1 < |fp.chain| && Ahead(fp.fs.g, fp.chain, n, cc, j + 1, ccs + fp.fs.g.csize)
              && fp.chain[n / fp.fs.g.csize + j + 1] == next
    ensures fp.fs.disk.faults == old(fp.fs.disk.faults) && old(CountExact(fp.fs)) ==> CountExact(fp.fs)
  {
    hide Volume.Valid, Volume.View, Volume.Snap, Holds, InFile, IsChain, IsChainOrEmpty, Mappable, File.Ready, Advances,
         File.Mapped, InRun, Distinct, CountExact, NoneFree, CsizeOk, SectorCount, Adjacent, LookAheadSafe, EndIntact,
         ClusterPos, LeftAt, Ahead, HasBrokenOff;
    fp.Parts();
    ghost var s, c := fp.fs.Snap(), fp.chain;
    AheadPos(fp.fs.g, c, n, cc, j, ccs);
    AheadOffset(fp.fs.g, c, n, cc, j, ccs);
    ghost var k := n / fp.fs.g.csize + j;
    LinkOrEnd(s.fat, c, k);
    var ended := fp.fs.Peek(prev) >= fp.fs.g.nFatEnt;
    next := NextOrNew(fp, prev, k, ofs);
    lost := next == DISK_ERROR && ended && fp.fs.Peek(prev) < fp.fs.g.nFatEnt;
    if next == DISK_ERROR {
      fp.fs.Contents();
      LostOrIntact(s.fat, fp.fs.fat, c, k);
    }
    if lost { return; }
    AdvancesTrans(fp.fs.g, s0, c0, s, c, fp.fs.Snap(), fp.chain);
    AdvancesPrefix(fp.fs.g, s, c, fp.fs.Snap(), fp.chain);
    AheadMore(fp.fs.g, c, fp.chain, n, cc, j, ccs, k);
  }

  lemma AheadMore(g: Geometry, c: seq<int>, c': seq<int>, n: nat, cc: nat, j: nat, ccs: nat, k: nat)
    requires g.csize > 0 && Ahead(g, c, n, cc, j, ccs) && c <= c' && n % g.csize + cc > ccs && k == n / g.csize + j
    ensures k < |c| && c'[k] == c[k] && Ahead(g, c', n, cc, j, ccs)
    ensures k + 1 < |c'| && c'[k + 1] == c[k] + 1 ==> Ahead(g, c', n, cc, j + 1, ccs + g.csize)
  {
    hide Ahead;
    AheadPos(g, c, n, cc, j, ccs);
    AheadGrow(g, c, c', n, cc, j, ccs);
    if k + 1 < |c'| && c'[k + 1] == c[k] + 1 {
      AheadStep(g, c', n, cc, j, ccs);
    }
  }

  lemma LostOrIntact(fat: seq<int>, fat': seq<int>, chain: seq<int>, k: nat)
    requires k < |chain| && 0 <= chain[k] < |fat'| == |fat| && (k + 1 < |chain| ==> fat[chain[k]] < |fat|)
    ensures k + 1 == |chain| ==> (EndIntact(fat', chain) <==> fat'[chain[k]] >= |fat'|)
    ensures fat[chain[k]] >= |fat| > fat'[chain[k]] && LeftAt(fat, fat', chain[k]) ==> HasBrokenOff(fat, chain, fat')
  {
    hide LeftAt;
  }

  /** Whole sectors straight from the caller's data. If the buffer held one of them it is refreshed. */
  method WriteRun(fp: File, src: seq<byte>, sect: u32, len: nat) returns (res: FResult)
    requires RunAt(fp.fs.g, fp.chain, fp.fptr / SS, len, sect)
    requires fp.Ready() && !fp.dirty && fp.fptr % SS == 0 && fp.fptr <= fp.objsize
    requires |src| == len * SS && fp.fptr + |src| < TWO32
    modifies fp`content, fp`objsize, fp`dirty, fp.buf, fp.fs.disk
    ensures fp.fs.Valid() && old(fp.fs.disk.faults) <= fp.fs.disk.faults
    ensures Spares(fp.fs.g, old(fp.fs.Snap()), fp.fs.Snap(), fp.chain)
    ensures res == Ok || (res == DiskErr && old(fp.fs.disk.faults) < fp.fs.disk.faults)
    ensures res == Ok ==> fp.Ready() && fp.content == Overwrite(old(fp.content), fp.fptr, src)
  {
    hide Volume.Valid, Volume.View, Volume.Snap, Holds, InFile, IsChain, IsChainOrEmpty, Mappable, File.Ready, Spares,
         Distinct, RunAt, SectorNo, Flat, Overwrite, WritesOnly, SectorCount, AllClusters, CsizeOk;
    fp.Parts();
    ghost var s, buf, content := fp.fs.Snap(), fp.buf[..], fp.content;
    ghost var n := fp.fptr / SS;
    NoWindow(fp, n, len, sect);
    RunPlace(fp.fs.g, s.view, fp.chain, n, len, sect);
    var ok := fp.fs.WriteData(src, sect, len);
    RunSpared(fp.fs.g, s, fp.fs.Snap(), fp.chain, n, len, sect);
    if !ok { return DiskErr; }
    fp.fs.Contents();
    RefreshBuffer(fp, src, sect, len);
    fp.content := Overwrite(content, fp.fptr, src);
    if fp.fptr + |src| > fp.objsize {
      fp.objsize := fp.fptr + |src|;
    }
    ReadyWritten(fp, s, buf, content, n, len, sect, src);
    res := Ok;
  }

  /** If the buffer holds one of the sectors just written, it gets their data. */
  method RefreshBuffer(fp: File, src: seq<byte>, sect: u32, len: nat)
    requires fp.buf.Length == SS && fp.buf != fp.fs.win && |src| == len * SS
    requires sect + len <= |fp.fs.View()| < TWO32 && Flat(fp.fs.View(), sect, len) == src && !fp.dirty
    modifies fp`dirty, fp.buf
    ensures !fp.dirty && fp.buf[..] == if sect <= fp.sect < sect + len then fp.fs.View()[fp.sect] else old(fp.buf[..])
  {
    hide Volume.View, Flat, Sub32, Splice;
    OffsetTest(fp.sect, sect, len);
    var d := Sub32(fp.sect, sect);
    if d < len {
      FlatSector(fp.fs.View(), sect, len, d);
      WholeSplice(fp.buf[..], src[d * SS..d * SS + SS]);
      CopyInto(fp.buf, 0, src[d * SS..d * SS + SS]);
      fp.dirty := false;
    }
  }

  lemma ReadyWritten(fp: File, s: Snapshot, buf: seq<byte>, content: seq<byte>, n: nat, len: nat, sect: nat,
                     src: seq<byte>)
    requires fp.fs.Valid() && fp.buf.Length == SS && fp.buf != fp.fs.win && |fp.content| == fp.objsize && !fp.dirty
    requires IsChainOrEmpty(fp.fs.fat, fp.chain) && fp.sclust == (if fp.chain == [] then 0 else fp.chain[0])
    requires !InFile(fp.fs.g, fp.chain, fp.fs.winsect)
    requires Holds(fp.fs.g, s.view, fp.chain, false, fp.sect, buf, content) && n * SS <= |content|
    requires RunAt(fp.fs.g, fp.chain, n, len, sect)
    requires WritesOnly(fp.fs.g, s, fp.fs.Snap(), sect, len)
    requires sect + len <= |fp.fs.View()| && Flat(fp.fs.View(), sect, len) == src
    requires fp.buf[..] == if sect <= fp.sect < sect + len then fp.fs.View()[fp.sect] else buf
    requires fp.content == Overwrite(content, n * SS, src)
    ensures fp.Ready()
  {
    hide Volume.Valid, Volume.View, Holds, InFile, IsChain, IsChainOrEmpty, RunAt, SectorNo, Flat, Overwrite;
    AfterDirect(fp.fs.g, s.view, fp.fs.View(), fp.chain, fp.sect, buf, content, n, len, sect, fp.buf[..]);
  }

  lemma WholeSplice(s: seq<byte>, bytes: seq<byte>)
    requires |bytes| == |s|
    ensures Splice(s, 0, bytes) == bytes
  {
  }

  lemma RunPlace(g: Geometry, v: seq<Sector>, chain: seq<int>, n: nat, len: nat, sect: int)
    requires Mappable(g, v, chain) && RunAt(g, chain, n, len, sect)
    ensures g.database <= sect && n + len <= SectorCount(g, chain)
  {
    SectorsInside(g, chain);
  }

  lemma RunSpared(g: Geometry, s: Snapshot, s': Snapshot, chain: seq<int>, n: nat, len: nat, sect: nat)
    requires RunAt(g, chain, n, len, sect) && |s.fat| == g.nFatEnt
    requires WritesOnly(g, s, s', sect, len) && s.faults <= s'.faults
    ensures Spares(g, s, s', chain)
  {
    SparesWrite(g, s, s', chain, n, len, sect);
  }

  /** Before a partial sector is written: the buffer must hold the sector, unless that lies past the
      end of the file. */
  method FillBuffer(fp: File, sect: u32, ghost n: nat) returns (res: FResult)
    requires fp.Ready() && !fp.dirty && IsSector(fp.fs.g, fp.chain, n, sect)
    requires fp.fptr <= fp.objsize
    modifies fp`sect, fp.buf, fp.fs.disk`faults
    ensures fp.fs.Valid() && old(fp.fs.disk.faults) <= fp.fs.disk.faults
    ensures Keeps(fp.fs.g, old(fp.fs.Snap()), fp.fs.Snap())
    ensures res == Ok || (res == DiskErr && old(fp.fs.disk.faults) < fp.fs.disk.faults)
    ensures res == Ok ==> fp.Ready() && (fp.sect == sect || fp.fptr == fp.objsize)
  {
    hide Volume.Valid, Volume.View, Volume.Snap, Holds, IsChain, IsChainOrEmpty, Mappable, Keeps, Distinct, Flat;
    SameUpdates(fp.fs.g, fp.fs.Snap());
    res := Ok;
    if fp.sect != sect && fp.fptr < fp.objsize {
      fp.Parts();
      assert InFile(fp.fs.g, fp.chain, sect);
      InFileBounds(fp.fs.g, fp.fs.View(), fp.chain, sect);
      ghost var buf := fp.buf[..];
      var ok := fp.fs.ReadData(fp.buf, 0, sect, 1);
      if !ok { return DiskErr; }
      FlatOne(fp.fs.View(), sect);
      assert fp.buf[..] == fp.buf[0..0 + 1 * SS];
      AfterLoad(fp.fs.g, fp.fs.View(), fp.chain, fp.sect, buf, fp.content, sect, fp.buf[..]);
      fp.sect := sect;
    }
  }

  /** Part of a sector, into the buffer. */
  method WritePartial(fp: File, sect: u32, bytes: seq<byte>)
    requires fp.Ready() && fp.fptr <= fp.objsize && IsSector(fp.fs.g, fp.chain, fp.fptr / SS, sect)
    requires fp.sect == sect || (!fp.dirty && fp.fptr % SS == 0 && fp.fptr == fp.objsize)
    requires 0 < |bytes| && fp.fptr % SS + |bytes| <= SS && fp.fptr + |bytes| < TWO32
    modifies fp`content, fp`objsize, fp`dirty, fp`sect, fp.buf
    ensures fp.Ready() && fp.sect == sect && InFile(fp.fs.g, fp.chain, fp.sect)
    ensures fp.content == Overwrite(old(fp.content), fp.fptr, bytes)
  {
    hide Volume.Valid, Volume.View, Holds, InFile, IsChain, IsChainOrEmpty, Mappable, Distinct, SectorNo, Splice,
         Overwrite;
    fp.Parts();
    ghost var n, o := fp.fptr / SS, fp.fptr % SS;
    assert n * SS + o == fp.fptr;
    SectorInFile(fp.fs.g, fp.chain, n, sect);
    AfterPoke(fp.fs.g, fp.fs.View(), fp.chain, fp.dirty, fp.sect, fp.buf[..], fp.content, n, o, bytes);
    fp.sect := sect;
    CopyInto(fp.buf, fp.fptr % SS, bytes);
    fp.dirty := true;
    fp.content := Overwrite(fp.content, fp.fptr, bytes);
    if fp.fptr + |bytes| > fp.objsize {
      fp.objsize := fp.fptr + |bytes|;
    }
  }

  /** The outcome of a pass through f_write's loop; `Derailed` if the chain has lost its end mark. */
  datatype Step = Wrote(count: nat) | DiskFull | Aborted(res: FResult) | Derailed

  /** Why a step may abort. */
  ghost predicate Excused(fs: Volume, faults: nat, res: FResult)
    reads fs`fat, fs.disk`faults
  {
    (res == IntErr && HasOne(fs.fat)) || (res == DiskErr && faults < fs.disk.faults)
  }

  /** The part of a pass for a file pointer on a sector boundary: whole sectors directly, or (the
      count is 0) preparations for a part of a sector. */
  method WriteAligned(fp: File, wbuff: seq<byte>) returns (out: Step, sect: u32)
    requires fp.Valid() && fp.Mapped() && fp.fptr % SS == 0
    requires 0 < |wbuff| && fp.fptr + |wbuff| < TWO32
    modifies fp`clust, fp`chain, fp`sclust, fp`content, fp`objsize, fp`dirty, fp`sect, fp.buf
    modifies fp.fs`winsect, fp.fs`wflag, fp.fs`fat, fp.fs`lastClst, fp.fs`freeClst, fp.fs`fsiDirty, fp.fs.win,
             fp.fs.disk
    ensures out == Derailed ==> !old(LookAheadSafe(fp)) && old(fp.fs.disk.faults) < fp.fs.disk.faults
    ensures out != Derailed ==> fp.fs.Valid() && old(fp.fs.disk.faults) <= fp.fs.disk.faults
    ensures out != Derailed ==> Advances(fp.fs.g, old(fp.fs.Snap()), old(fp.chain), fp.fs.Snap(), fp.chain)
    ensures out != Derailed ==> GrownFor(fp.fs.g, old(fp.chain), fp.chain, fp.fptr + |wbuff|)
    ensures out.Aborted? ==> Excused(fp.fs, old(fp.fs.disk.faults), out.res)
    ensures out.Wrote? || out == DiskFull ==> (old(LookAheadSafe(fp)) ==> LookAheadSafe(fp))
    ensures out == DiskFull ==>
              fp.Valid() && fp.Mapped() && OutOfRoom(fp) && AtEnd(fp) && fp.content == old(fp.content)
                  && fp.sect == old(fp.sect)
    ensures out.Wrote? ==> fp.Ready() && fp.Mapped() && out.count <= |wbuff|
    ensures out.Wrote? && out.count > 0 ==> fp.sect == old(fp.sect)
                                            && fp.content == Overwrite(old(fp.content), fp.fptr, wbuff[..out.count])
                                            && StandsAt(fp, fp.fptr + out.count)
    ensures out == Wrote(0) ==> fp.content == old(fp.content) && OnSector(fp, fp.fptr / SS, sect)
                                && (fp.sect == sect || (!fp.dirty && fp.fptr == fp.objsize)) && |wbuff| < SS
    ensures fp.fs.disk.faults == old(fp.fs.disk.faults) && old(CountExact(fp.fs)) ==> CountExact(fp.fs)
  {
    hide ClusterPos, Volume.Valid, Volume.View, Volume.Snap, Holds, IsChain, IsChainOrEmpty, Mappable, InFile, Distinct,
         File.Ready, Advances, File.Mapped, CursorAt, BufferAt, AtSector, IsSector, SectorNo, CsizeOk, SectorCount,
         Overwrite, CountExact, NoneFree, Spares, Keeps, LookAheadSafe;
    sect := 0;
    var e := EnterOrNew(fp);
    if e == Full { return DiskFull, sect; }
    if e.Failed? { return Aborted(e.res), sect; }
    ghost var s, c := fp.fs.Snap(), fp.chain;
    out, sect := WriteHere(fp, wbuff);
    if out == Derailed { return; }
    GrownTrans(fp.fs.g, old(fp.chain), c, fp.chain, fp.fptr + 1, fp.fptr + |wbuff|);
    AdvancesTrans(fp.fs.g, old(fp.fs.Snap()), old(fp.chain), s, c, fp.fs.Snap(), fp.chain);
  }

  method WriteHere(fp: File, wbuff: seq<byte>) returns (out: Step, sect: u32)
    requires fp.Ready() && fp.Mapped() && fp.fptr % SS == 0 && fp.fptr <= fp.objsize
    requires AtSector(fp, fp.fptr / SS) && 0 < |wbuff| && fp.fptr + |wbuff| < TWO32
    modifies fp`clust, fp`chain, fp`sclust, fp`content, fp`objsize, fp`dirty, fp`sect, fp.buf
    modifies fp.fs`winsect, fp.fs`wflag, fp.fs`fat, fp.fs`lastClst, fp.fs`freeClst, fp.fs`fsiDirty, fp.fs.win,
             fp.fs.disk
    ensures out == Derailed ==> !old(LookAheadSafe(fp)) && old(fp.fs.disk.faults) < fp.fs.disk.faults
    ensures out != Derailed ==> fp.fs.Valid() && old(fp.fs.disk.faults) <= fp.fs.disk.faults
    ensures out != Derailed ==> Advances(fp.fs.g, old(fp.fs.Snap()), old(fp.chain), fp.fs.Snap(), fp.chain)
    ensures out != Derailed ==> GrownFor(fp.fs.g, old(fp.chain), fp.chain, fp.fptr + |wbuff|)
    ensures out.Wrote? || out == Derailed || (out == Aborted(DiskErr) && old(fp.fs.disk.faults) < fp.fs.disk.faults)
    ensures out.Wrote? ==>
              fp.Ready() && fp.Mapped() && (old(LookAheadSafe(fp)) ==> LookAheadSafe(fp)) && out.count <= |wbuff|
    ensures out.Wrote? && out.count > 0 ==> fp.sect == old(fp.sect)
                                            && Overwritten(old(fp.content), fp.fptr, wbuff[..out.count], fp.content)
                                            && StandsAt(fp, fp.fptr + out.count)
    ensures out == Wrote(0) ==> fp.content == old(fp.content) && OnSector(fp, fp.fptr / SS, sect)
                                && (fp.sect == sect || (!fp.dirty && fp.fptr == fp.objsize)) && |wbuff| < SS
    ensures fp.fs.disk.faults == old(fp.fs.disk.faults) && old(CountExact(fp.fs)) ==> CountExact(fp.fs)
  {
    hide ClusterPos, Volume.Valid, Volume.View, Volume.Snap, Holds, IsChain, IsChainOrEmpty, Mappable, InFile, Distinct,
         File.Ready, Advances, File.Mapped, CursorAt, BufferAt, AtSector, IsSector, SectorNo, CsizeOk, SectorCount,
         Overwrite, CountExact, NoneFree, Spares, Keeps, LookAheadSafe;
    sect := 0;
    ghost var s0 := fp.fs.Snap();
    var ok := Flush(fp);
    AdvancesSame(fp.fs.g, s0, fp.fs.Snap(), fp.chain);
    if !ok { return Aborted(DiskErr), sect; }
    ghost var s, c := fp.fs.Snap(), fp.chain;
    sect := CurrentSector(fp);
    if |wbuff| / SS > 0 {
      out := WriteWhole(fp, wbuff, sect);
      if out == Derailed { return; }
      AdvancesTrans(fp.fs.g, s0, old(fp.chain), s, c, fp.fs.Snap(), fp.chain);
    } else {
      var res := FillBuffer(fp, sect, fp.fptr / SS);
      AdvancesKeeps(fp, s);
      AdvancesTrans(fp.fs.g, s0, old(fp.chain), s, c, fp.fs.Snap(), fp.chain);
      if res != Ok { return Aborted(res), sect; }
      out := Wrote(0);
    }
  }

  lemma AdvancesKeeps(fp: File, s: Snapshot)
    requires fp.fs.Valid() && Keeps(fp.fs.g, s, fp.fs.Snap()) && s.faults <= fp.fs.disk.faults
    ensures Advances(fp.fs.g, s, fp.chain, fp.fs.Snap(), fp.chain)
  {
    hide Volume.Valid, Spares, Volume.Snap;
    fp.fs.Contents();
    SparesKeeps(fp.fs.g, s, fp.fs.Snap(), fp.chain);
    AdvancesSame(fp.fs.g, s, fp.fs.Snap(), fp.chain);
  }

  /** The direct part: as many whole sectors as lie side by side. */
  method WriteWhole(fp: File, wbuff: seq<byte>, sect: u32) returns (out: Step)
    requires fp.Ready() && fp.Mapped() && fp.fptr % SS == 0 && fp.fptr <= fp.objsize && !fp.dirty
    requires OnSector(fp, fp.fptr / SS, sect) && SS <= |wbuff| && fp.fptr + |wbuff| < TWO32
    modifies fp`clust, fp`chain, fp`sclust, fp`content, fp`objsize, fp`dirty, fp.buf
    modifies fp.fs`winsect, fp.fs`wflag, fp.fs`fat, fp.fs`lastClst, fp.fs`freeClst, fp.fs`fsiDirty, fp.fs.win,
             fp.fs.disk
    ensures out == Derailed ==> !old(LookAheadSafe(fp)) && old(fp.fs.disk.faults) < fp.fs.disk.faults
    ensures out != Derailed ==> fp.fs.Valid() && old(fp.fs.disk.faults) <= fp.fs.disk.faults
    ensures out != Derailed ==> Advances(fp.fs.g, old(fp.fs.Snap()), old(fp.chain), fp.fs.Snap(), fp.chain)
    ensures out != Derailed ==> GrownFor(fp.fs.g, old(fp.chain), fp.chain, fp.fptr + |wbuff|)
    ensures out.Wrote? || out == Derailed || (out == Aborted(DiskErr) && old(fp.fs.disk.faults) < fp.fs.disk.faults)
    ensures out.Wrote? ==>
              fp.Ready() && fp.Mapped() && (old(LookAheadSafe(fp)) ==> LookAheadSafe(fp)) && 0 < out.count <= |wbuff|
    ensures out.Wrote? ==> Overwritten(old(fp.content), fp.fptr, wbuff[..out.count], fp.content)
                           && StandsAt(fp, fp.fptr + out.count)
    ensures fp.fs.disk.faults == old(fp.fs.disk.faults) && old(CountExact(fp.fs)) ==> CountExact(fp.fs)
  {
    hide ClusterPos, Volume.Valid, Volume.View, Volume.Snap, Holds, IsChain, IsChainOrEmpty, Mappable, InFile, InRun,
         Distinct, File.Ready, Advances, File.Mapped, CursorAt, BufferAt, SectorNo, Overwrite, CountExact, NoneFree,
         Spares, Keeps, LookAheadSafe, GrownFor;
    fp.Capacity();
    ghost var s0, c0 := fp.fs.Snap(), fp.chain;
    var cc := |wbuff| / SS;
    var len, lost := LookAheadNew(fp, fp.fptr / SS % fp.fs.g.csize, cc);
    if lost { return Derailed; }
    ghost var s, c := fp.fs.Snap(), fp.chain;
    SamePlace(fp, s0, c0, s, sect);
    GrownFurther(fp.fs.g, c0, c, fp.fptr + cc * SS, fp.fptr + |wbuff|);
    var res := WriteRun(fp, wbuff[..len * SS], sect, len);
    AdvancesSame(fp.fs.g, s, fp.fs.Snap(), fp.chain);
    AdvancesTrans(fp.fs.g, s0, c0, s, c, fp.fs.Snap(), fp.chain);
    if res != Ok { return Aborted(res); }
    BufferAnywhere(fp.fs.g, fp.chain, fp.fptr + len * SS, fp.sect);
    out := Wrote(len * SS);
  }

  /** The sector of the file pointer is where it was before the chain grew. */
  lemma SamePlace(fp: File, s0: Snapshot, c0: seq<int>, s: Snapshot, sect: int)
    requires fp.Ready() && Advances(fp.fs.g, s0, c0, s, fp.chain)
    requires IsSector(fp.fs.g, c0, fp.fptr / SS, sect)
    ensures IsSector(fp.fs.g, fp.chain, fp.fptr / SS, sect)
  {
    hide Volume.Valid, Volume.View, Holds, IsChain, InFile, Distinct, File.Ready, Spares;
    fp.Parts();
    SectorsGrow(fp.fs.g, fp.fs.View(), c0, fp.chain);
  }

  /** One pass through f_write's loop. */
  method WriteStep(fp: File, wbuff: seq<byte>) returns (out: Step)
    requires fp.Valid() && fp.Mapped()
    requires 0 < |wbuff| && fp.fptr + |wbuff| < TWO32
    modifies fp`clust, fp`chain, fp`sclust, fp`content, fp`objsize, fp`dirty, fp`sect, fp`fptr, fp.buf
    modifies fp.fs`winsect, fp.fs`wflag, fp.fs`fat, fp.fs`lastClst, fp.fs`freeClst, fp.fs`fsiDirty, fp.fs.win,
             fp.fs.disk
    ensures out == Derailed ==> !old(LookAheadSafe(fp)) && old(fp.fs.disk.faults) < fp.fs.disk.faults
    ensures out != Derailed ==> fp.fs.Valid() && old(fp.fs.disk.faults) <= fp.fs.disk.faults
    ensures out != Derailed ==> Advances(fp.fs.g, old(fp.fs.Snap()), old(fp.chain), fp.fs.Snap(), fp.chain)
    ensures out != Derailed ==> GrownFor(fp.fs.g, old(fp.chain), fp.chain, old(fp.fptr) + |wbuff|)
    ensures out.Aborted? ==> Excused(fp.fs, old(fp.fs.disk.faults), out.res)
    ensures out.Wrote? || out == DiskFull ==> (old(LookAheadSafe(fp)) ==> LookAheadSafe(fp))
    ensures out == DiskFull ==>
              fp.Valid() && fp.Mapped() && OutOfRoom(fp) && AtEnd(fp) && fp.content == old(fp.content)
                  && fp.fptr == old(fp.fptr)
    ensures out.Wrote? ==> fp.Valid() && fp.Mapped() && 0 < out.count <= |wbuff| && fp.fptr == old(fp.fptr) + out.count
    ensures out.Wrote? ==> fp.content == Overwrite(old(fp.content), old(fp.fptr), wbuff[..out.count])
    ensures out.Wrote? || out == DiskFull ==> SectorKept(fp, old(fp.sect))
    ensures fp.fs.disk.faults == old(fp.fs.disk.faults) && old(CountExact(fp.fs)) ==> CountExact(fp.fs)
  {
    hide GrownFor, File.Valid, StandsAt, Volume.Valid, Volume.View, Volume.Snap, Holds, IsChain, IsChainOrEmpty,
         Mappable, InFile, Distinct, File.Ready, Advances, File.Mapped, CursorAt, BufferAt, AtSector, IsSector,
         SectorNo, CsizeOk, SectorCount, Overwrite, CountExact, NoneFree, OutOfRoom, Excused, LookAheadSafe;
    Standing(fp);
    fp.Capacity();
    out := Wrote(0);
    var sect := fp.sect;
    if fp.fptr % SS == 0 {
      out, sect := WriteAligned(fp, wbuff);
    } else {
      AdvancesNot(fp.fs.g, fp.fs.Snap(), fp.chain);
      NotGrown(fp.fs.g, fp.chain, fp.fptr + |wbuff|);
      InsideSector(fp);
    }
    if out == Wrote(0) {
      WriteRest(fp, wbuff, sect);
      out := Wrote(if SS - fp.fptr % SS > |wbuff| then |wbuff| else SS - fp.fptr % SS);
    }
    if out.Wrote? {
      fp.fptr := fp.fptr + out.count;
      Standing(fp);
    }
  }

  /** The rest of the current sector, or as much of it as there is data for, into the buffer. */
  method WriteRest(fp: File, wbuff: seq<byte>, sect: u32)
    requires fp.Ready() && fp.fptr <= fp.objsize && OnSector(fp, fp.fptr / SS, sect)
    requires fp.sect == sect || (!fp.dirty && fp.fptr % SS == 0 && fp.fptr == fp.objsize)
    requires 0 < |wbuff| && fp.fptr + |wbuff| < TWO32
    modifies fp`content, fp`objsize, fp`dirty, fp`sect, fp.buf
    ensures
      var wcnt := if SS - fp.fptr % SS > |wbuff| then |wbuff| else SS - fp.fptr % SS;
      && fp.content == Overwrite(old(fp.content), fp.fptr, wbuff[..wcnt])
      && fp.Ready() && StandsAt(fp, fp.fptr + wcnt) && InFile(fp.fs.g, fp.chain, fp.sect)
  {
    hide Volume.Valid, Volume.View, Holds, IsChain, IsChainOrEmpty, Mappable, InFile, Distinct, File.Ready, Overwrite,
         SectorCount, CsizeOk, CursorAt, BufferAt, IsSector;
    var wcnt := SS - fp.fptr % SS;
    if wcnt > |wbuff| {
      wcnt := |wbuff|;
    }
    InsidePlace(fp.fs.g, fp.chain, fp.fptr, wcnt, fp.clust, sect);
    WritePartial(fp, sect, wbuff[..wcnt]);
  }

  /** What f_write goes on to do when its file has lost the end mark of its chain. Nothing is said about
      it but that it may change what f_write may change. */
  method Derail(fp: File) returns (res: FResult, bw: u32)
    modifies fp`clust, fp`chain, fp`sclust, fp`content, fp`objsize, fp`dirty, fp`sect, fp`fptr, fp`err, fp`modified,
             fp.buf
    modifies fp.fs`winsect, fp.fs`wflag, fp.fs`fat, fp.fs`lastClst, fp.fs`freeClst, fp.fs`fsiDirty, fp.fs.win,
             fp.fs.disk
    ensures old(fp.fs.disk.faults) <= fp.fs.disk.faults
  {
    res, bw := *, *;
  }

  /** f_write's loop: all of `data`, or as much as there is room for. */
  method WriteLoop(fp: File, data: seq<byte>) returns (res: FResult, bw: u32, lost: bool)
    requires fp.Valid() && fp.Mapped() && fp.fptr + |data| < TWO32
    modifies fp`clust, fp`chain, fp`sclust, fp`content, fp`objsize, fp`dirty, fp`sect, fp`fptr, fp.buf
    modifies fp.fs`winsect, fp.fs`wflag, fp.fs`fat, fp.fs`lastClst, fp.fs`freeClst, fp.fs`fsiDirty, fp.fs.win,
             fp.fs.disk
    ensures lost ==> !old(LookAheadSafe(fp)) && old(fp.fs.disk.faults) < fp.fs.disk.faults
    ensures !lost ==> fp.fs.Valid() && old(fp.fs.disk.faults) <= fp.fs.disk.faults
    ensures !lost ==> Advances(fp.fs.g, old(fp.fs.Snap()), old(fp.chain), fp.fs.Snap(), fp.chain)
    ensures !lost ==> GrownFor(fp.fs.g, old(fp.chain), fp.chain, old(fp.fptr) + |data|)
    ensures !lost ==> bw as int <= |data| && (res == Ok || Excused(fp.fs, old(fp.fs.disk.faults), res))
    ensures !lost && res == Ok ==>
              fp.Valid() && fp.Mapped() && (old(LookAheadSafe(fp)) ==> LookAheadSafe(fp))
                  && fp.fptr == old(fp.fptr) + bw
    ensures !lost && res == Ok ==> fp.content == Overwrite(old(fp.content), old(fp.fptr), data[..bw])
    ensures !lost && res == Ok && bw as int < |data| ==> OutOfRoom(fp) && AtEnd(fp)
    ensures !lost && res == Ok ==> SectorKept(fp, old(fp.sect))
    ensures fp.fs.disk.faults == old(fp.fs.disk.faults) && old(CountExact(fp.fs)) ==> CountExact(fp.fs)
  {
    hide GrownFor, Volume.Valid, Volume.View, Volume.Snap, Advances, File.Ready, CursorAt, BufferAt, File.Mapped,
         Overwrite, CountExact, OutOfRoom, Excused, LookAheadSafe, SectorCount, CsizeOk, AllClusters, Zeros, NoneFree,
         IsChainOrEmpty, AtEnd;
    res, bw, lost := Ok, 0, false;
    AdvancesNot(fp.fs.g, fp.fs.Snap(), fp.chain);
    NotGrown(fp.fs.g, fp.chain, fp.fptr + |data|);
    fp.Capacity();
    OverwriteNothing(fp.content, fp.fptr);
    ghost var start := fp.fptr;
    while bw < |data|
      invariant fp.fs.Valid() && fp.Valid() && fp.Mapped() && old(fp.fs.disk.faults) <= fp.fs.disk.faults && !lost
      invariant old(LookAheadSafe(fp)) ==> LookAheadSafe(fp)
      invariant Advances(fp.fs.g, old(fp.fs.Snap()), old(fp.chain), fp.fs.Snap(), fp.chain)
      invariant GrownFor(fp.fs.g, old(fp.chain), fp.chain, start + |data|)
      invariant bw as int <= |data| && fp.fptr == start + bw && res == Ok
      invariant fp.content == Overwrite(old(fp.content), start, data[..bw])
      invariant SectorKept(fp, old(fp.sect))
      invariant fp.fs.disk.faults == old(fp.fs.disk.faults) && old(CountExact(fp.fs)) ==> CountExact(fp.fs)
    {
      ghost var s, c, sect := fp.fs.Snap(), fp.chain, fp.sect;
      var out := WriteStep(fp, data[bw..]);
      if out == Derailed {
        lost := true;
        return;
      }
      GrownTrans(fp.fs.g, old(fp.chain), c, fp.chain, start + |data|, start + |data|);
      AdvancesTrans(fp.fs.g, old(fp.fs.Snap()), old(fp.chain), s, c, fp.fs.Snap(), fp.chain);
      if !out.Aborted? {
        AdvancesPrefix(fp.fs.g, s, c, fp.fs.Snap(), fp.chain);
        KeptOnward(fp, c, old(fp.sect), sect);
      }
      if out == DiskFull { break; }
      if out.Aborted? {
        ExcusedLater(fp.fs, old(fp.fs.disk.faults), s.faults, out.res);
        res := out.res;
        return;
      }
      WroteMore(old(fp.content), start, data, bw, out.count);
      bw := bw + out.count;
    }
  }

  /** f_write: `btw` bytes at the file pointer; fewer if the volume has no room or the file would
      reach 4 GiB. `lost` says that a failed transfer has destroyed the end mark of the chain, which only
      happens where LookAheadSafe does not hold; then nothing more is promised. */
  method Write(fp: File, wbuff: seq<byte>) returns (res: FResult, bw: u32, lost: bool)
    requires fp.fs.Valid() && |wbuff| < TWO32
    requires fp.err == Ok ==> fp.Valid() && fp.Mapped()
    modifies fp`clust, fp`chain, fp`sclust, fp`content, fp`objsize, fp`dirty, fp`sect, fp`fptr, fp`err, fp`modified,
             fp.buf
    modifies fp.fs`winsect, fp.fs`wflag, fp.fs`fat, fp.fs`lastClst, fp.fs`freeClst, fp.fs`fsiDirty, fp.fs.win,
             fp.fs.disk
    ensures lost ==> old(fp.err) == Ok && !old(LookAheadSafe(fp)) && old(fp.fs.disk.faults) < fp.fs.disk.faults
    ensures old(fp.err) != Ok ==> res == old(fp.err) && bw == 0 && unchanged(fp, fp.buf, fp.fs, fp.fs.win, fp.fs.disk)
    ensures old(fp.err) == Ok && !fp.canWrite ==>
              !lost && res == Denied && bw == 0 && unchanged(fp, fp.buf, fp.fs, fp.fs.win, fp.fs.disk)
    ensures !lost ==>
              fp.fs.Valid() && (fp.err == Ok ==> fp.Valid() && fp.Mapped())
                  && old(fp.fs.disk.faults) <= fp.fs.disk.faults
    ensures !lost && fp.err == Ok && old(LookAheadSafe(fp)) ==> LookAheadSafe(fp)
    ensures !lost ==> Advances(fp.fs.g, old(fp.fs.Snap()), old(fp.chain), fp.fs.Snap(), fp.chain)
    ensures !lost && old(fp.err) == Ok && fp.canWrite ==>
              res == fp.err && (res == Ok || Excused(fp.fs, old(fp.fs.disk.faults), res))
    ensures !lost && res == Ok ==> bw as int <= Fitting(old(fp.fptr), |wbuff|)
    ensures !lost && res == Ok ==> fp.fptr == old(fp.fptr) + bw && fp.modified && SectorKept(fp, old(fp.sect))
    ensures !lost && res == Ok ==> GrownFor(fp.fs.g, old(fp.chain), fp.chain, fp.fptr)
    ensures !lost && res == Ok ==> fp.content == Overwrite(old(fp.content), old(fp.fptr), wbuff[..bw])
    ensures !lost && res == Ok && bw as int < Fitting(old(fp.fptr), |wbuff|) ==> OutOfRoom(fp) && AtEnd(fp)
    ensures fp.fs.disk.faults == old(fp.fs.disk.faults) && old(CountExact(fp.fs)) ==> CountExact(fp.fs)
  {
    hide GrownFor, Volume.Valid, Volume.View, Volume.Snap, Advances, File.Ready, CursorAt, BufferAt, File.Mapped,
         Overwrite, CountExact, OutOfRoom, LookAheadSafe, SectorCount, CsizeOk, AllClusters, Zeros, NoneFree, Fitting,
         IsChainOrEmpty, AtEnd;
    bw, lost := 0, false;
    AdvancesNot(fp.fs.g, fp.fs.Snap(), fp.chain);
    if fp.err != Ok { return fp.err, bw, lost; }
    if !fp.canWrite { return Denied, bw, lost; }
    fp.Capacity();
    var btw := Fitting(fp.fptr, |wbuff|);
    var derailed;
    res, bw, derailed := WriteLoop(fp, wbuff[..btw]);
    if derailed {
      res, bw := Derail(fp);
      lost := true;
      return;
    }
    assert wbuff[..btw][..bw] == wbuff[..bw];
    if res != Ok {
      fp.err := res;
      return;
    }
    fp.modified := true;
    fp.Capacity();
    GrownToEnd(fp, old(fp.chain), old(fp.fptr) + btw);
  }

  lemma WroteMore(content: seq<byte>, start: nat, data: seq<byte>, bw: nat, count: nat)
    requires start <= |content| && bw + count <= |data|
    ensures Overwrite(Overwrite(content, start, data[..bw]), start + bw, data[bw..][..count]) ==
            Overwrite(content, start, data[..bw + count])
  {
    hide Overwrite;
    OverwriteTwice(content, start, data[..bw], data[bw..bw + count]);
    assert data[..bw] + data[bw..bw + count] == data[..bw + count];
    assert data[bw..][..count] == data[bw..bw + count];
  }

  lemma ExcusedLater(fs: Volume, first: nat, later: nat, res: FResult)
    requires first <= later && Excused(fs, later, res)
    ensures Excused(fs, first, res) && res != Ok
  {
  }

  /** How many of `btw` bytes f_write takes at position `pos`: a file cannot reach 4 GiB. */
  function Fitting(pos: u32, btw: nat): (n: nat)
    requires btw < TWO32
    ensures n <= btw && pos + n < TWO32
    ensures n < btw ==> pos + n == 0xFFFF_FFFF
  {
    if (pos + btw) % TWO32 < pos then 0xFFFF_FFFF - pos else btw
  }
}
