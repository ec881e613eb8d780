/** The file object, and the accesses to its sector buffer. */
module Files {
  import opened Words
  import opened Flatten
  import opened FatLayout
  import opened Geometry
  import opened Volume
  import opened Chains
  import opened FileMap
  import opened FileState
  import opened Effects
  import opened LinkMap

  lemma ChainMappable(fs: Volume, chain: seq<int>)
    requires fs.Valid() && IsChainOrEmpty(fs.fat, chain)
    ensures Mappable(fs.g, fs.View(), chain)
  {
    fs.Contents();
    ChainDistinct(fs.fat, chain);
  }

  lemma ChainDistinct(fat: seq<int>, chain: seq<int>)
    requires IsChainOrEmpty(fat, chain)
    ensures Distinct(chain)
  {
    forall k, m | 0 <= k < m < |chain|
      ensures chain[k] != chain[m]
    {
      ChainAcyclic(fat, chain, k, m);
    }
  }

  class File {
    const fs: Volume
    const buf: array<byte>
    const canRead: bool    // FA_READ
    const canWrite: bool   // FA_WRITE
    var modified: bool     // FA_MODIFIED
    var dirty: bool        // FA_DIRTY: buf is newer than its sector
    var err: FResult       // sticky: the error that has ended the use of the object
    var fptr: u32
    var clust: u32
    var sect: u32          // sector in buf, 0 for none
    var sclust: u32
    var objsize: u32
    var cltbl: array?<u32>
    ghost var chain: seq<int>     // the file's clusters
    ghost var content: seq<byte>  // the file's bytes
    ghost var mapped: seq<int>    // the chain as the link map lists it

    /** The last part of f_open: the file object of a file whose directory entry names the first
        cluster `sclust` and the size `objsize`. */
    constructor (fs: Volume, canRead: bool, canWrite: bool, sclust: u32, objsize: u32, ghost chain: seq<int>)
      requires fs.Valid() && IsChainOrEmpty(fs.fat, chain) && sclust == (if chain == [] then 0 else chain[0])
      requires objsize <= SectorCount(fs.g, chain) * SS && !InFile(fs.g, chain, fs.winsect)
      ensures Valid() && fresh(buf) && this.fs == fs && this.chain == chain && this.objsize == objsize
      ensures fptr == 0 && err == Ok && cltbl == null && !modified && !dirty
      ensures this.canRead == canRead && this.canWrite == canWrite
      ensures content == AllBytes(fs.g, fs.View(), chain)[..objsize]
    {
      hide AllBytes, InFile, IsChainOrEmpty, SectorCount;
      this.fs := fs;
      this.canRead, this.canWrite := canRead, canWrite;
      modified, dirty, err := false, false, Ok;
      fptr, clust, sect := 0, 0, 0;
      this.sclust, this.objsize := sclust, objsize;
      cltbl := null;
      buf := new byte[SS](_ => 0);
      this.chain := chain;
      fs.Contents();
      ChainMappable(fs, chain);
      content := AllBytes(fs.g, fs.View(), chain)[..objsize];
    }

    /** What holds throughout the file functions, while the file pointer is being moved, too. */
    ghost predicate Ready()
      reads `dirty, `sect, `sclust, `objsize, `chain, `content, buf
      reads fs`winsect, fs`wflag, fs`fat, fs.win, fs.disk`data
      ensures Ready() ==> fs.Valid() && buf != fs.win && buf.Length == SS && fs.g.csize > 0 && AllClusters(fs.g, chain)
      ensures Ready() ==> |content| == objsize
    {
      && fs.Valid()
      && buf.Length == SS && buf != fs.win
      && IsChainOrEmpty(fs.fat, chain)
      && sclust == (if chain == [] then 0 else chain[0])
      && !InFile(fs.g, chain, fs.winsect)
      && |content| == objsize
      && Holds(fs.g, fs.View(), chain, dirty, sect, buf[..], content)
    }

    /** What holds between the file functions. */
    ghost predicate Valid()
      reads `dirty, `sect, `sclust, `objsize, `chain, `content, `fptr, `clust, buf
      reads fs`winsect, fs`wflag, fs`fat, fs.win, fs.disk`data
    {
      && Ready()
      && fptr <= objsize
      && CursorAt(fs.g, chain, fptr, clust)
      && BufferAt(fs.g, chain, fptr, sect)
    }

    /** The link map, if there is one, is that of the file. Or it is the link map of the file when it
        had no clusters, and the first one has been added since. */
    ghost predicate Mapped()
      reads `cltbl, `chain, `mapped, cltbl
    {
      cltbl != null ==> Encodes(cltbl[..], 1, mapped) && (mapped == chain || (mapped == [] && |chain| == 1))
    }

    lemma Capacity()
      requires Ready()
      ensures objsize == |content| <= SectorCount(fs.g, chain) * SS && CsizeOk(fs.g)
    {
    }

    lemma Parts()
      requires Ready()
      ensures Holds(fs.g, fs.View(), chain, dirty, sect, buf[..], content) && Mappable(fs.g, fs.View(), chain)
      ensures IsChainOrEmpty(fs.fat, chain) && sclust == (if chain == [] then 0 else chain[0])
      ensures !InFile(fs.g, chain, fs.winsect)
      ensures fs.g.FatsEnd() <= fs.g.database && |fs.fat| == fs.g.nFatEnt && |fs.View()| <= NO_SECTOR
      ensures forall k :: 0 <= k < |chain| ==> 2 <= chain[k] < fs.g.nFatEnt < 0x1000_0000
    {
      fs.Contents();
    }
  }

  /** The current cluster and the buffer are right for position `pos`. */
  ghost predicate StandsAt(fp: File, pos: int)
    reads fp`chain, fp`clust, fp`sect
  {
    && fp.fs.g.csize > 0 && AllClusters(fp.fs.g, fp.chain)
    && CursorAt(fp.fs.g, fp.chain, pos, fp.clust) && BufferAt(fp.fs.g, fp.chain, pos, fp.sect)
  }

  /** What it takes for a file object to be in order between the file functions. */
  lemma Standing(fp: File)
    ensures fp.Valid() <==> fp.Ready() && fp.fptr <= fp.objsize && StandsAt(fp, fp.fptr)
  {
    hide File.Ready, CursorAt, BufferAt;
  }

  /** The buffer is for the same sector as before, or for one of the file's. */
  ghost predicate SectorKept(fp: File, before: u32)
    reads fp`sect, fp`chain
  {
    fp.sect == before || InFile(fp.fs.g, fp.chain, fp.sect)
  }

  /** The buffer is for a sector of the file, or for none. */
  ghost predicate BufferOwn(fp: File)
    reads fp`sect, fp`chain
  {
    fp.sect != 0 ==> InFile(fp.fs.g, fp.chain, fp.sect)
  }

  lemma KeptOnward(fp: File, chain: seq<int>, before: u32, was: u32)
    requires was == before || InFile(fp.fs.g, chain, was)
    requires chain <= fp.chain && AllClusters(fp.fs.g, fp.chain) && SectorKept(fp, was)
    ensures SectorKept(fp, before)
  {
    if fp.sect == was && was != before {
      InFileGrows(fp.fs.g, chain, fp.chain, was);
    }
  }

  lemma StillOwn(fp: File, chain: seq<int>, before: u32)
    requires before != 0 ==> InFile(fp.fs.g, chain, before)
    requires chain <= fp.chain && AllClusters(fp.fs.g, fp.chain) && SectorKept(fp, before)
    ensures BufferOwn(fp)
  {
    if fp.sect == before != 0 {
      InFileGrows(fp.fs.g, chain, fp.chain, before);
    }
  }

  /** The buffer and the bytes of the file, whatever may have become of its chain. */
  ghost predicate Buffered(fp: File)
    reads fp`dirty, fp`sect, fp`chain, fp`content, fp.buf
    reads fp.fs`winsect, fp.fs`wflag, fp.fs`fat, fp.fs.win, fp.fs.disk`data
  {
    && fp.fs.Valid() && fp.buf.Length == SS && fp.buf != fp.fs.win
    && fp.fs.g.csize > 0 && AllClusters(fp.fs.g, fp.chain)
    && !InFile(fp.fs.g, fp.chain, fp.fs.winsect)
    && Holds(fp.fs.g, fp.fs.View(), fp.chain, fp.dirty, fp.sect, fp.buf[..], fp.content)
  }

  /** Writes the buffer back if it is newer than its sector. */
  method WriteBack(fp: File) returns (ok: bool)
    requires Buffered(fp)
    modifies fp`dirty, fp.fs.disk
    ensures Buffered(fp) && (ok ==> !fp.dirty)
    ensures old(fp.fs.disk.faults) <= fp.fs.disk.faults && (ok <==> fp.fs.disk.faults == old(fp.fs.disk.faults))
    ensures Spares(fp.fs.g, old(fp.fs.Snap()), fp.fs.Snap(), fp.chain)
    ensures ok ==> fp.fs.View() == Overlay(old(fp.fs.View()), old(fp.dirty), fp.sect, fp.buf[..])
  {
    hide Volume.Valid, Volume.View, Volume.Snap, Holds, Spares, InFile;
    SparesSame(fp.fs.g, fp.fs.Snap(), fp.chain);
    ok := true;
    if fp.dirty {
      ghost var v := fp.fs.View();
      ghost var n := DirtySector(fp);
      ok := fp.fs.WriteData(fp.buf[..], fp.sect, 1);
      SparesWrite(fp.fs.g, old(fp.fs.Snap()), fp.fs.Snap(), fp.chain, n, 1, fp.sect);
      if ok {
        FlatOne(fp.fs.View(), fp.sect);
        assert fp.fs.View() == Overlay(v, true, fp.sect, fp.buf[..]);
        AfterFlush(fp.fs.g, v, fp.fs.View(), fp.chain, fp.sect, fp.buf[..], fp.content);
        fp.dirty := false;
      } else {
        AfterFailedFlush(fp.fs.g, v, fp.fs.View(), fp.chain, fp.sect, fp.buf[..], fp.content);
      }
    }
  }

  lemma DirtySector(fp: File) returns (n: nat)
    requires Buffered(fp) && fp.dirty
    ensures n < SectorCount(fp.fs.g, fp.chain) && SectorNo(fp.fs.g, fp.chain, n) == fp.sect
    ensures fp.fs.g.database <= fp.sect && fp.sect != fp.fs.winsect
  {
    hide Volume.Valid, Volume.View;
    assert InFile(fp.fs.g, fp.chain, fp.sect);
    n :| 0 <= n < SectorCount(fp.fs.g, fp.chain) && SectorNo(fp.fs.g, fp.chain, n) == fp.sect;
    InFileBounds(fp.fs.g, fp.fs.View(), fp.chain, fp.sect);
  }

  /** Writes the buffer of a file in order back if it is newer than its sector. */
  method Flush(fp: File) returns (ok: bool)
    requires fp.Ready()
    modifies fp`dirty, fp.fs.disk
    ensures fp.Ready() && (ok ==> !fp.dirty)
    ensures old(fp.fs.disk.faults) <= fp.fs.disk.faults && (ok <==> fp.fs.disk.faults == old(fp.fs.disk.faults))
    ensures Spares(fp.fs.g, old(fp.fs.Snap()), fp.fs.Snap(), fp.chain)
    ensures ok ==> fp.fs.View() == Overlay(old(fp.fs.View()), old(fp.dirty), fp.sect, fp.buf[..])
  {
    hide Volume.Valid, Volume.View, Volume.Snap, Holds, Spares, InFile, IsChainOrEmpty;
    ok := WriteBack(fp);
  }

  /** Changes to the FATs only do not touch the file's bytes. */
  lemma HoldsOutsideFats(g: Geometry, v: seq<Sector>, v': seq<Sector>, chain: seq<int>,
                         dirty: bool, sect: int, buf: seq<byte>, content: seq<byte>)
    requires Holds(g, v, chain, dirty, sect, buf, content)
    requires g.FatsEnd() <= g.database && SameOutsideFats(g, v, v')
    ensures Holds(g, v', chain, dirty, sect, buf, content)
  {
    forall s | 0 <= s < |v| && InFile(g, chain, s)
      ensures v'[s] == v[s]
    {
      InFileBounds(g, v, chain, s);
    }
    AfterOthers(g, v, v', chain, dirty, sect, buf, content);
  }

  /** A window that stays, or shows nothing, or shows a FAT sector, shows no sector of the file. */
  lemma WindowOff(g: Geometry, v: seq<Sector>, chain: seq<int>, w: u32, w': u32)
    requires Mappable(g, v, chain) && |v| <= NO_SECTOR && g.FatsEnd() <= g.database
    requires !InFile(g, chain, w) && (w' in {w, NO_SECTOR} || g.InFat(w'))
    ensures !InFile(g, chain, w')
  {
    if InFile(g, chain, w') {
      InFileBounds(g, v, chain, w');
    }
  }

  /** The file object is still in order after a change to the FATs only. */
  lemma ReadyAgain(fp: File, s: Snapshot, w: u32)
    requires fp.fs.Valid() && fp.buf.Length == SS && fp.buf != fp.fs.win && |fp.content| == fp.objsize
    requires IsChainOrEmpty(fp.fs.fat, fp.chain) && fp.sclust == (if fp.chain == [] then 0 else fp.chain[0])
    requires Holds(fp.fs.g, s.view, fp.chain, fp.dirty, fp.sect, fp.buf[..], fp.content)
    requires Updates(fp.fs.g, s, fp.fs.Snap())
    requires !InFile(fp.fs.g, fp.chain, w) && (fp.fs.winsect in {w, NO_SECTOR} || fp.fs.g.InFat(fp.fs.winsect))
    ensures fp.Ready()
  {
    hide Volume.Valid, Volume.View, Holds, InFile;
    fp.fs.Contents();
    ChainMappable(fp.fs, fp.chain);
    HoldsOutsideFats(fp.fs.g, s.view, fp.fs.View(), fp.chain, fp.dirty, fp.sect, fp.buf[..], fp.content);
    WindowOff(fp.fs.g, fp.fs.View(), fp.chain, w, fp.fs.winsect);
  }
}
