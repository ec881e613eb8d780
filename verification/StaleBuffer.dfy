/** Why an operation on a file whose buffered cluster another file has taken is not part of a run: on a volume
    with a single cluster such a file reads as two different things with no write in between. */
module StaleBuffer {
  import opened Words
  import opened Flatten
  import opened Storage
  import opened FatLayout
  import opened Geometry
  import opened Volume
  import opened Chains
  import opened Allocator
  import opened FileMap
  import opened FileState
  import opened Effects
  import opened Files
  import opened FileRead
  import opened FileGrow
  import opened FileWrite
  import opened FileFollow
  import opened FileSeek
  import opened FileTruncate
  import opened PlainFiles
  import opened FileRuns

  /** A FAT12 volume with one cluster, which is device sector 2. */
  const TINY: Geometry := Geometry(Fat12, 1, 3, 1, 1, 1, 2)

  function Filled(b: byte): Sector {
    seq(SS, _ => b)
  }

  /** The FAT of a file that has the cluster. */
  function TinyFat(): Sector {
    Filled(0)[3 := 0xFF][4 := 0x0F]
  }

  lemma TinySound()
    ensures TINY.Sound() && TINY.End() == 3 && TINY.ClusterSector(2) == 2
  {
  }

  lemma TinyEntry(tab: seq<byte>)
    requires tab == TinyFat()
    ensures Fits(Fat12, tab, 2) && FatLayout.Entry(Fat12, tab, 2) == 0xFFF
  {
  }

  /** The bytes of a file with that cluster are those of its sector. */
  lemma OneSector(v: seq<Sector>, chain: seq<int>, dirty: bool, sect: int, buf: seq<byte>, content: seq<byte>)
    requires Holds(TINY, v, chain, dirty, sect, buf, content) && |content| == SS
    ensures chain != [] && chain[0] == 2 && 2 < |v| && content == Overlay(v, dirty, sect, buf)[2]
  {
    hide AllBytes;
    assert SectorCount(TINY, chain) >= 1;
    assert chain[0] == 2;
    BytesAt(TINY, v, chain, dirty, sect, buf, content, 0, 0, SS);
    assert SectorNo(TINY, chain, 0) == 2;
    assert content[0 * SS + 0..0 * SS + 0 + SS] == content;
    var w := Overlay(v, dirty, sect, buf)[2];
    assert w[0..0 + SS] == w;
  }

  /** What is in the buffer of a file without clusters. */
  lemma NoSector(v: seq<Sector>, dirty: bool, sect: int, buf: seq<byte>, content: seq<byte>)
    requires Holds(TINY, v, [], dirty, sect, buf, content)
    ensures !dirty && (sect != 0 ==> 0 <= sect < |v| && buf == v[sect])
  {
  }

  method TinyDisk() returns (disk: Disk)
    ensures |disk.data| == 3 && disk.data[1] == TinyFat() && disk.data[2] == Filled(1) && disk.faults == 0
              && fresh(disk)
  {
    hide Filled, TinyFat;
    disk := new Disk([Filled(0), TinyFat(), Filled(1)], true);
  }

  /** The volume, with the cluster in use and full of ones. */
  method TinyVolume(disk: Disk) returns (fs: Volume)
    requires |disk.data| == 3 && disk.data[1] == TinyFat()
    ensures fs.Valid() && fs.g == TINY && fs.disk == disk && CountExact(fs) && fs.winsect == NO_SECTOR
    ensures |fs.fat| == 3 && fs.fat[2] == 0xFFF && fs.View() == disk.data
    ensures fresh(fs) && fresh(fs.win) && disk.data == old(disk.data) && disk.faults == old(disk.faults)
  {
    hide Volume.Valid, Volume.View, Filled, TinyFat, Zeros, Geometry.Sound, Geometry.End, Volume.Mirrored;
    TinySound();
    fs := new Volume(TINY, disk);
    TinyShows(fs);
  }

  lemma TinyShows(fs: Volume)
    requires fs.Valid() && fs.g == TINY && !fs.wflag && |fs.disk.data| == 3 && fs.disk.data[1] == TinyFat()
    ensures fs.View() == fs.disk.data && |fs.fat| == 3 && fs.fat[2] == 0xFFF
  {
    hide Flat, Decodes, Filled, TinyFat, Geometry.Sound;
    fs.Contents();
    FlatOne(fs.View(), 1);
    TinyEntry(fs.Table());
    TinyDecoded(fs.Table(), fs.fat);
  }

  lemma TinyDecoded(tab: seq<byte>, fat: seq<int>)
    requires Decodes(Fat12, tab, fat) && |fat| == 3 && tab == TinyFat()
    ensures fat[2] == 0xFFF
  {
    assert Fits(Fat12, tab, 2);
  }

  /** A file with the cluster. */
  method Setup() returns (f: File)
    ensures f.Valid() && f.err == Ok && f.cltbl == null && f.fptr == 0 && fresh(f) && fresh(f.buf)
    ensures f.canRead && f.canWrite && f.fs.g == TINY && f.chain == [2] && f.content == Filled(1)
    ensures f.fs.disk.faults == 0 && CountExact(f.fs) && fresh(f.fs) && fresh(f.fs.disk) && fresh(f.fs.win)
  {
    hide Volume.Valid, Volume.View, Holds, File.Ready, InFile, CursorAt, BufferAt, Filled, TinyFat, Overlay,
         IsChainOrEmpty, SectorCount, AllBytes, Zeros;
    var disk := TinyDisk();
    var fs := TinyVolume(disk);
    ghost var v := fs.View();
    NotShown(fs.winsect);
    TinyChain(fs.fat);
    f := new File(fs, true, true, 2, SS, [2]);
    assert f.fs.View() == v;
    Shown(f);
    CleanFile(f);
  }

  lemma CleanFile(f: File)
    requires f.buf.Length == SS && !f.dirty
    ensures Overlay(f.fs.View(), f.dirty, f.sect, f.buf[..]) == f.fs.View()
  {
  }

  lemma TinyChain(fat: seq<int>)
    requires |fat| == 3 && fat[2] == 0xFFF
    ensures IsChainOrEmpty(fat, [2]) && SectorCount(TINY, [2]) == 1
  {
  }

  lemma NotShown(w: u32)
    requires w == NO_SECTOR
    ensures !InFile(TINY, [2], w)
  {
  }

  /** The table of the volume is the chain of the one file that may have the cluster. */
  lemma TinyTable(fat: seq<int>, chain: seq<int>)
    requires |fat| == 3 && IsChainOrEmpty(fat, chain) && (chain == [] ==> fat[2] == 0)
    ensures Consists(fat, [chain])
  {
    if chain != [] {
      assert chain[0] == 2;
      assert 2 in [chain][0];
      assert Covered([chain], 2);
    }
  }

  /** Without a failed transfer a function on that file does not come across an entry 1. */
  lemma NoMishap(fp: File, s: Snapshot, chain: seq<int>)
    requires fp.fs.g == TINY && |s.fat| == 3 && IsChainOrEmpty(s.fat, chain) && (chain == [] ==> s.fat[2] == 0)
    requires Confined(TINY, s, chain, fp.fs.Snap(), fp.chain) && fp.fs.disk.faults == s.faults
    ensures !HasOne(fp.fs.fat) && Replaces(s.fat, chain, fp.fs.fat, fp.chain)
  {
    TinyTable(s.fat, chain);
    TableKept(TINY, s, fp.fs.Snap(), [chain], 0, fp.chain);
  }

  lemma BufferedSector(f: File)
    requires f.Valid() && f.fs.g == TINY && f.chain == [2] && f.fptr == 1
    ensures f.sect == 2
  {
    assert SectorNo(TINY, [2], 0) == 2;
  }

  /** What the file looks like on the volume, a newer buffer laid over it. */
  lemma Shown(f: File)
    requires f.Ready() && f.fs.g == TINY && |f.content| == SS
    ensures f.chain != [] && f.chain[0] == 2 && f.buf.Length == SS && 2 < |f.fs.View()|
    ensures Overlay(f.fs.View(), f.dirty, f.sect, f.buf[..])[2] == f.content
  {
    hide Volume.Valid, Volume.View, InFile, IsChainOrEmpty, Holds;
    f.Parts();
    OneSector(f.fs.View(), f.chain, f.dirty, f.sect, f.buf[..], f.content);
  }

  lemma ShownEmpty(f: File)
    requires f.Ready() && f.fs.g == TINY && f.chain == [] && f.sect == 2
    ensures !f.dirty && 2 < |f.fs.View()| && f.buf[..] == f.fs.View()[2] && f.sclust == 0 && f.objsize == |f.content|
  {
    hide Volume.Valid, Volume.View, InFile, IsChainOrEmpty, Holds;
    f.Parts();
    NoSector(f.fs.View(), f.dirty, f.sect, f.buf[..], f.content);
  }

  lemma NoneNeeded()
    ensures ClustersFor(TINY, 0) == 0
  {
  }

  lemma OutsideFats(v: seq<Sector>, v': seq<Sector>)
    requires SameOutsideFats(TINY, v, v') && 2 < |v|
    ensures |v'| == |v| && v'[2] == v[2]
  {
  }

  /** The one cluster is free, and known to be so. */
  ghost predicate Vacant(fs: Volume)
    reads fs`freeClst, fs`fat
  {
    fs.g == TINY && CountExact(fs) && |fs.fat| == 3 && fs.fat[2] == 0
  }

  /** The file is read, which fills its buffer, and its pointer set back. */
  method ReadAndRewind(f: File) returns (ok: bool)
    requires f.Valid() && f.err == Ok && f.cltbl == null && f.fptr == 0 && f.canRead
    requires f.fs.g == TINY && f.chain == [2] && f.content == Filled(1)
    modifies f, f.buf, f.fs, f.fs.win, f.fs.disk
    ensures f.fs.Valid() && old(f.fs.disk.faults) <= f.fs.disk.faults
    ensures !ok ==> old(f.fs.disk.faults) < f.fs.disk.faults
    ensures ok ==> f.Valid() && f.err == Ok && f.cltbl == null && f.chain == [2] && f.content == Filled(1)
                   && f.fptr == 0 && f.sect == 2
    ensures f.fs.disk.faults == old(f.fs.disk.faults) && old(CountExact(f.fs)) ==> CountExact(f.fs)
  {
    hide Volume.Valid, Volume.View, Volume.Snap, File.Ready, Spares, Advances, Confined, CountExact, LookAheadSafe,
         Holds, CursorAt, BufferAt, Seekable, Replaces, HasOne, Overlay, IsChainOrEmpty, BufferOwn, Filled, Splice,
         SectorKept;
    ghost var faults := f.fs.disk.faults;
    var rbuff := new byte[1];
    f.Parts();
    var res, br := Read(f, rbuff, 1);
    if res != Ok { return false; }
    BufferedSector(f);
    f.Parts();
    ghost var s := f.fs.Snap();
    res := Lseek(f, 0);
    AdvancesConfined(TINY, s, [2], f.fs.Snap(), f.chain);
    if f.fs.disk.faults == faults {
      NoMishap(f, s, [2]);
    }
    ok := res == Ok;
  }

  /** Then it is truncated to nothing. */
  method Strand(f: File) returns (ok: bool)
    requires f.Valid() && f.err == Ok && f.cltbl == null && f.fptr == 0 && f.canRead && f.canWrite
    requires f.fs.g == TINY && f.chain == [2] && f.content == Filled(1) && CountExact(f.fs)
    modifies f, f.buf, f.fs, f.fs.win, f.fs.disk
    ensures f.fs.Valid() && old(f.fs.disk.faults) <= f.fs.disk.faults
    ensures f.fs.disk.faults == old(f.fs.disk.faults) ==>
              && ok && f.Valid() && f.err == Ok && f.content == [] && f.chain == [] && f.sclust == 0 && f.fptr == 0
              && f.cltbl == null && f.objsize == 0 && !f.dirty && f.buf.Length == SS && f.buf != f.fs.win
                 && f.sect == 2 && f.buf[..] == Filled(1)
              && Vacant(f.fs)
  {
    hide Volume.Valid, Volume.View, Volume.Snap, File.Ready, Spares, Confined, CountExact, LookAheadSafe, Holds,
         CursorAt, BufferAt, InFirst, Replaces, HasOne, ClustersFor, SameOutsideFats, Overlay, IsChainOrEmpty,
         KeepsBuffer, BufferOwn, Filled;
    ghost var faults := f.fs.disk.faults;
    ok := ReadAndRewind(f);
    if !ok { return; }
    f.Parts();
    Shown(f);
    ghost var s := f.fs.Snap();
    ghost var v := Overlay(f.fs.View(), f.dirty, f.sect, f.buf[..]);
    var res := Truncate(f);
    ok := res == Ok;
    if f.fs.disk.faults == faults {
      NoneNeeded();
      NoMishap(f, s, [2]);
      OutsideFats(v, f.fs.View());
      ShownEmpty(f);
      GivenUp(s.fat, f.fs.fat);
    }
  }

  lemma GivenUp(fat: seq<int>, fat': seq<int>)
    requires |fat| == 3 && Replaces(fat, [2], fat', [])
    ensures |fat'| == 3 && fat'[2] == 0
  {
    assert 2 in [2];
  }

  /** A second file, without clusters, takes the cluster and fills it with twos. */
  method FillWithTwos(h: File) returns (ok: bool)
    requires h.Valid() && h.err == Ok && h.cltbl == null && h.fptr == 0 && h.canWrite
    requires h.fs.g == TINY && h.chain == [] && h.content == []
    modifies h, h.buf, h.fs, h.fs.win, h.fs.disk
    ensures old(h.fs.disk.faults) <= h.fs.disk.faults
    ensures h.fs.disk.faults == old(h.fs.disk.faults) && old(Vacant(h.fs)) ==> ok && CountExact(h.fs)
    ensures ok ==> h.Valid() && h.err == Ok && h.cltbl == null && h.content == Filled(2) && h.fptr == SS
  {
    hide Volume.Valid, Volume.View, Volume.Snap, File.Ready, Spares, Advances, Confined, CountExact, LookAheadSafe,
         Holds, CursorAt, BufferAt, Replaces, HasOne, IsChainOrEmpty, BufferOwn, Filled, OutOfRoom, AtEnd, SectorKept;
    ghost var faults, s := h.fs.disk.faults, h.fs.Snap();
    h.Parts();
    var res, bw, lost := Write(h, Filled(2));
    if lost { return false; }
    AdvancesConfined(TINY, s, [], h.fs.Snap(), h.chain);
    ok := res == Ok && bw == SS;
    if h.fs.disk.faults == faults && old(Vacant(h.fs)) {
      NoMishap(h, s, []);
      AllFits(h, s, bw);
    }
    if ok { Written(Filled(2)); }
  }

  lemma AllFits(h: File, s: Snapshot, bw: int)
    requires h.fs.g == TINY && h.fs.disk.faults == s.faults && Confined(TINY, s, [], h.fs.Snap(), h.chain)
    requires |s.fat| == 3 && s.fat[2] == 0 && h.cltbl == null && CountExact(h.fs)
    requires h.err == Ok ==> h.Valid() && h.fptr == bw && (bw < SS ==> OutOfRoom(h) && AtEnd(h))
    ensures h.err == Ok ==> bw >= SS
  {
    hide Volume.Valid, Volume.View, Holds, Confined;
    if h.err == Ok && bw < SS {
      RoomUsed(h);
      RoomKept(h, s, []);
      OneFree(s.fat);
    }
  }

  lemma OneFree(fat: seq<int>)
    requires |fat| == 3 && fat[2] == 0
    ensures Zeros(fat) == 1
  {
    assert Zeros(fat[..2]) == 0;
  }

  lemma Written(bytes: seq<byte>)
    ensures bytes[..|bytes|] == bytes && Overwrite([], 0, bytes) == bytes
  {
  }

  /** ... and gives it back. */
  method Release(h: File) returns (ok: bool)
    requires h.Valid() && h.err == Ok && h.cltbl == null && h.canWrite
    requires h.fs.g == TINY && h.content == Filled(2)
    modifies h, h.buf, h.fs, h.fs.win, h.fs.disk
    ensures old(h.fs.disk.faults) <= h.fs.disk.faults
    ensures h.fs.disk.faults == old(h.fs.disk.faults) ==> ok && (old(CountExact(h.fs)) ==> Vacant(h.fs))
    ensures ok ==> h.fs.Valid() && |h.fs.View()| > 2 && h.fs.View()[2] == Filled(2)
  {
    hide Volume.Valid, Volume.View, Volume.Snap, File.Ready, Spares, Advances, Confined, CountExact, LookAheadSafe,
         Holds, CursorAt, BufferAt, InFirst, Replaces, HasOne, ClustersFor, SameOutsideFats, Overlay, IsChainOrEmpty,
         KeepsBuffer, BufferOwn, Filled, Sought, Seekable, SectorKept;
    ghost var faults, s, chain := h.fs.disk.faults, h.fs.Snap(), h.chain;
    h.Parts();
    Shown(h);
    var res := Lseek(h, 0);
    AdvancesConfined(TINY, s, chain, h.fs.Snap(), h.chain);
    if h.fs.disk.faults == faults {
      NoMishap(h, s, chain);
    }
    if res != Ok { return false; }
    h.Parts();
    Shown(h);
    s, chain := h.fs.Snap(), h.chain;
    ghost var v := Overlay(h.fs.View(), h.dirty, h.sect, h.buf[..]);
    res := Truncate(h);
    ok := res == Ok;
    if ok {
      OutsideFats(v, h.fs.View());
    }
    if h.fs.disk.faults == faults {
      NoneNeeded();
      NoMishap(h, s, chain);
      OnlyOne(s.fat, chain);
      GivenUp(s.fat, h.fs.fat);
    }
  }

  lemma OnlyOne(fat: seq<int>, chain: seq<int>)
    requires |fat| == 3 && IsChainOrEmpty(fat, chain) && chain != []
    ensures chain == [2]
  {
    if |chain| > 1 {
      ChainAcyclic(fat, chain, 0, 1);
    }
  }

  lemma NoChain(fat: seq<int>, w: u32)
    ensures IsChainOrEmpty(fat, []) && SectorCount(TINY, []) == 0 && !InFile(TINY, [], w)
  {
  }

  /** All of that on the volume of a file `f` that has been truncated to nothing. */
  method TakenMeanwhile(f: File) returns (ok: bool)
    requires f.fs.Valid() && f.fs.g == TINY
    modifies f.fs, f.fs.win, f.fs.disk
    ensures old(f.fs.disk.faults) <= f.fs.disk.faults
    ensures f.fs.disk.faults == old(f.fs.disk.faults) && old(Vacant(f.fs)) ==> ok && Vacant(f.fs)
    ensures ok ==> f.fs.Valid() && |f.fs.View()| > 2 && f.fs.View()[2] == Filled(2)
  {
    hide Volume.Valid, Volume.View, File.Ready, Holds, CountExact, InFile, CursorAt, BufferAt, Filled, Zeros,
         IsChainOrEmpty;
    NoChain(f.fs.fat, f.fs.winsect);
    var h := new File(f.fs, true, true, 0, 0, []);
    ok := FillWithTwos(h);
    if !ok { return; }
    ok := Release(h);
  }

  lemma TinyFacts(g: Geometry, w: nat)
    requires g == TINY
    ensures g.csize == 1 && g.IsCluster(2) && (g.InFat(w) <==> w == 1)
    ensures INTERNAL_ERROR != 2 && DISK_ERROR != 2
  {
  }

  lemma TinyFirst(fs: Volume)
    requires fs.g == TINY
    ensures fs.g.Sound() && fs.ClusterToSector(2) == 2
  {
    TinySound();
  }

  // ------------------------------------------------------------------------------------------
  // The rest of the run. The file object is not in order any more, so these are the branches of f_lseek and f_read
  // that such a file takes, on the fields as they are.

  /** What can be said of the file object all the same. */
  ghost predicate InUse(f: File)
    reads f`err, f`cltbl, f`sclust, f`clust, f`fptr, f`objsize
    reads f.fs`winsect, f.fs`wflag, f.fs`fat, f.fs.win, f.fs.disk`data
  {
    && f.fs.Valid() && f.fs.g == TINY && |f.fs.View()| > 2
    && f.err == Ok && f.canRead && f.canWrite && f.cltbl == null && f.buf.Length == SS && f.buf != f.fs.win
    && (if f.objsize == 0 then f.sclust == 0 && f.fptr == 0 else f.sclust == 2 && f.objsize == SS)
    && f.fptr <= f.objsize && (f.fptr > 0 ==> f.clust == 2)
  }

  lemma InFirstCluster(ifptr: nat, ofs: nat, bcs: nat)
    requires bcs == SS && 0 < ifptr <= SS && 0 < ofs <= SS
    ensures (ifptr - 1) / bcs * bcs == 0 && (ofs - 1) / bcs >= (ifptr - 1) / bcs
  {
  }

  lemma UseIs(f: File)
    requires InUse(f)
    ensures f.fs.Valid() && f.fs.g == TINY && |f.fs.View()| > 2 && f.err == Ok && f.canRead && f.canWrite
              && f.cltbl == null
    ensures f.buf.Length == SS && f.buf != f.fs.win && f.fptr <= f.objsize && (f.fptr > 0 ==> f.clust == 2)
    ensures if f.objsize == 0 then f.sclust == 0 && f.fptr == 0 else f.sclust == 2 && f.objsize == SS
  {
    hide Volume.Valid, Volume.View;
  }

  lemma StillInUse(f: File)
    requires f.fs.Valid() && f.fs.g == TINY && |f.fs.View()| > 2 && f.err == Ok && f.canRead && f.canWrite
              && f.cltbl == null
    requires f.buf.Length == SS && f.buf != f.fs.win && f.fptr <= f.objsize && (f.fptr > 0 ==> f.clust == 2)
    requires if f.objsize == 0 then f.sclust == 0 && f.fptr == 0 else f.sclust == 2 && f.objsize == SS
    ensures InUse(f)
  {
    hide Volume.Valid, Volume.View;
  }

  /** f_lseek, without a link map, to the start or the end of the first cluster: that is a sector boundary, so
      the buffer is not filled, and the cluster following loop is not entered. */
  method SeekBoundary(f: File, ofs0: u32) returns (res: FResult)
    requires InUse(f) && (ofs0 == 0 || ofs0 == SS)
    modifies f`fptr, f`clust, f`sclust, f`objsize, f`modified, f`err, f.fs, f.fs.win, f.fs.disk
    ensures old(f.fs.disk.faults) <= f.fs.disk.faults
    ensures f.fs.disk.faults == old(f.fs.disk.faults) && (ofs0 > 0 && old(f.objsize) == 0 ==> old(Vacant(f.fs))) ==>
              res == Ok && f.objsize == if ofs0 > old(f.objsize) then ofs0 else old(f.objsize)
    ensures res == Ok ==> InUse(f) && f.fs.View()[2] == old(f.fs.View()[2])
    ensures res == Ok && (ofs0 == 0 || old(f.objsize) != 0) ==>
              f.fptr == ofs0 && f.objsize == old(f.objsize) && f.fs.winsect == old(f.fs.winsect)
    ensures res == Ok && ofs0 > 0 && old(f.objsize) == 0 && f.objsize != 0 ==> f.fs.winsect == 1
  {
    hide *;
    UseIs(f);
    TinyFacts(f.fs.g, f.fs.winsect);
    res := Ok;
    var ifptr, ofs := f.fptr, ofs0;
    f.fptr := 0;
    if ofs > 0 {
      var bcs := f.fs.g.csize * SS;
      if ifptr > 0 { InFirstCluster(ifptr, ofs, bcs); }
      var clst;
      if ifptr > 0 && (ofs - 1) / bcs >= (ifptr - 1) / bcs {
        f.fptr := (ifptr - 1) / bcs * bcs;
        ofs := ofs - f.fptr;
        clst := f.clust;
      } else {
        clst := f.sclust;
        if clst == 0 {
          clst := TakeAgain(f.fs);
          if clst == INTERNAL_ERROR { f.err := IntErr; return IntErr; }
          if clst == DISK_ERROR { f.err := DiskErr; return DiskErr; }
          f.sclust := clst;
        }
        f.clust := clst;
      }
      if clst != 0 {
        f.fptr := f.fptr + ofs;
      }
    }
    if f.fptr > f.objsize {
      f.objsize := f.fptr;
      f.modified := true;
    }
    StillInUse(f);
  }

  /** create_chain finds the one cluster free and takes it for a file without clusters. */
  method TakeAgain(fs: Volume) returns (r: u32)
    requires fs.Valid() && fs.g == TINY && |fs.View()| > 2
    modifies fs, fs.win, fs.disk
    ensures fs.Valid() && old(fs.disk.faults) <= fs.disk.faults && |fs.View()| > 2 && fs.View()[2] == old(fs.View()[2])
    ensures r in {0, 2, INTERNAL_ERROR, DISK_ERROR} && (r == 2 ==> fs.winsect == 1)
    ensures fs.disk.faults == old(fs.disk.faults) && old(Vacant(fs)) ==> r == 2
  {
    hide Volume.Valid, Volume.View, CountExact, Zeros, Geometry.Sound;
    ghost var s := fs.Snap();
    if |fs.fat| == 3 && fs.fat[2] == 0 { OneFree(fs.fat); }
    r := CreateChain(fs, 0);
    UpdatesView(fs.g, s, fs.Snap());
    OutsideFats(s.view, fs.View());
  }

  /** f_read at the start of a file of one sector: a whole sector comes from the device, a part of it from the
      buffer. That is not filled, since it counts as a copy of that sector, and not laid over what has been
      read, since it does not count as newer. */
  method ReadStart(f: File, rbuff: array<byte>) returns (res: FResult)
    requires InUse(f) && f.sect == 2 && !f.dirty && f.fptr == 0 && f.objsize == SS && f.fs.winsect != 2
    requires 0 < rbuff.Length <= SS && rbuff != f.buf && rbuff != f.fs.win
    modifies f`fptr, f`clust, f`err, f.fs.disk`faults, rbuff
    ensures old(f.fs.disk.faults) <= f.fs.disk.faults && (f.fs.disk.faults == old(f.fs.disk.faults) ==> res == Ok)
    ensures res == Ok ==> InUse(f) && f.fs.View()[2] == old(f.fs.View()[2])
    ensures res == Ok ==> rbuff[0] == if rbuff.Length == SS then f.fs.View()[2][0] else f.buf[0]
  {
    hide *;
    SectorSize();
    UseIs(f);
    res := Ok;
    var clst := f.sclust;
    f.clust := clst;
    var sect := FirstSector(f.fs, clst);
    var cc := rbuff.Length / SS;
    if cc > 0 {
      var ok := Direct(f.fs, rbuff, sect, cc);
      if !ok {
        f.err := DiskErr;
        return DiskErr;
      }
      f.fptr := f.fptr + cc * SS;
    } else {
      assert f.sect == sect;
      CopyInto(rbuff, 0, f.buf[..rbuff.Length]);
      WholeSplice(old(rbuff[..]), f.buf[..rbuff.Length]);
      assert rbuff[0] == rbuff[..][0];
      f.fptr := f.fptr + rbuff.Length;
    }
    StillInUse(f);
  }

  method FirstSector(fs: Volume, clst: u32) returns (sect: u32)
    requires fs.g == TINY && clst == 2
    ensures sect == 2
  {
    hide *;
    TinyFirst(fs);
    sect := fs.ClusterToSector(clst);
  }

  /** The transfer of a whole sector past the buffer. */
  method Direct(fs: Volume, rbuff: array<byte>, sect: u32, cc: nat) returns (ok: bool)
    requires fs.Valid() && fs.g == TINY && |fs.View()| > 2 && fs.winsect != 2 && sect == 2
    requires 0 < rbuff.Length <= SS && rbuff != fs.win && cc == rbuff.Length / SS && cc > 0
    modifies fs.disk`faults, rbuff
    ensures old(fs.disk.faults) <= fs.disk.faults && (fs.disk.faults == old(fs.disk.faults) ==> ok)
    ensures fs.Valid() && |fs.View()| > 2 && fs.View()[2] == old(fs.View()[2])
    ensures cc == 1 && rbuff.Length == SS && (ok ==> rbuff[0] == fs.View()[2][0])
  {
    hide *;
    OneWhole(rbuff.Length, cc);
    ok := fs.ReadData(rbuff, 0, sect, cc);
    if ok {
      OneRead(fs.View(), sect, cc, rbuff[0..0 + cc * SS], rbuff.Length);
      assert rbuff[0] == rbuff[0..0 + cc * SS][0];
    }
  }

  /** The end of the run: a seek that takes the cluster again, and the two reads. */
  method Finish(f: File, one: array<byte>, all: array<byte>)
    requires InUse(f) && f.objsize == 0 && f.sect == 2 && !f.dirty
    requires one.Length == 1 && all.Length == SS && one != all && {one, all} !! {f.buf, f.fs.win}
    modifies f`fptr, f`clust, f`sclust, f`objsize, f`modified, f`err, f.fs, f.fs.win, f.fs.disk, one, all
    ensures old(f.fs.disk.faults) <= f.fs.disk.faults
    ensures f.fs.disk.faults == old(f.fs.disk.faults) && old(Vacant(f.fs)) ==>
              one[0] == old(f.buf[0]) && all[0] == old(f.fs.View()[2][0])
  {
    hide *;
    SectorSize();
    UseIs(f);
    var res := SeekBoundary(f, SS);
    if res == Ok && f.objsize == SS {
      UseIs(f);
      res := SeekBoundary(f, 0);
      if res == Ok { res := ReadStart(f, one); }
      if res == Ok { res := SeekBoundary(f, 0); }
      if res == Ok {
        UseIs(f);
        res := ReadStart(f, all);
      }
    }
  }

  /** The run. File `f`, which holds ones, is read, set back and truncated to nothing; a second file takes the
      cluster, fills it with twos and gives it back; file `f` takes it again by a seek past its end. Then its
      first byte is read, by itself and with the whole sector, with a seek back before each. */
  method StaleRun() returns (f: File, one: array<byte>, all: array<byte>)
    ensures one.Length == 1 && all.Length == SS
    ensures f.fs.disk.faults == 0 ==> one[0] == 1 && all[0] == 2
  {
    hide *;
    one, all := new byte[1], new byte[SS];
    f := Setup();
    BufferThere(f);
    var ok := Strand(f);
    if ok { ok := TakenMeanwhile(f); }
    if ok && f.err == Ok && f.cltbl == null && f.sclust == 0 && f.fptr == 0 && f.objsize == 0 && f.sect == 2
       && !f.dirty {
      StillInUse(f);
      FirstBytes(f.buf[..], f.fs.View()[2]);
      Finish(f, one, all);
    }
  }

  lemma OneWhole(len: nat, cc: nat)
    requires len <= SS && cc == len / SS && cc > 0
    ensures cc == 1 && len == SS && cc * SS == SS && 0 < SS
  {
  }

  lemma OneRead(v: seq<Sector>, sect: nat, cc: nat, bytes: seq<byte>, len: nat)
    requires sect == 2 && cc == len / SS && 0 < cc && len <= SS && sect + cc <= |v| && bytes == Flat(v, sect, cc)
    ensures cc == 1 && len == SS && |bytes| == SS && bytes[0] == v[2][0]
  {
    FlatOne(v, 2);
  }

  lemma SectorSize()
    ensures 1 < SS < 0x1_0000_0000
  {
  }

  lemma BufferThere(f: File)
    requires f.Valid()
    ensures f.buf.Length == SS && f.buf != f.fs.win && f.fs.Valid()
  {
    hide Volume.Valid, Volume.View, IsChainOrEmpty, Holds, InFile;
  }

  lemma FirstBytes(buf: seq<byte>, sector: Sector)
    ensures buf == Filled(1) ==> |buf| == SS && buf[0] == 1
    ensures sector == Filled(2) ==> sector[0] == 2
  {
  }

  /** No plain file gives one byte when that is read alone and another when it is read with what follows. */
  lemma NotPlain(g: Geometry, mode: Mode, m: Moment, outs: seq<Outcome>, trace: seq<Moment>, caps: seq<nat>)
    requires PlainRun(g, mode, m, [SeekOp(SS), SeekOp(0), ReadOp(1), SeekOp(0), ReadOp(SS)], outs, trace, caps)
              && |outs| == 5
    requires outs[2].Data? && outs[4].Data? && |outs[2].bytes| == 1 && |outs[4].bytes| > 0
    ensures outs[2].bytes[0] == outs[4].bytes[0]
  {
    hide Follows, Takes, NoRoom, Room, CountRight, IsChainOrEmpty;
    var ops := [SeekOp(SS), SeekOp(0), ReadOp(1), SeekOp(0), ReadOp(SS)];
    assert RunStep(g, mode, caps[1], trace[1], ops[1], outs[1], trace[2]);
    assert RunStep(g, mode, caps[2], trace[2], ops[2], outs[2], trace[3]);
    assert RunStep(g, mode, caps[3], trace[3], ops[3], outs[3], trace[4]);
    assert RunStep(g, mode, caps[4], trace[4], ops[4], outs[4], trace[5]);
  }
}
