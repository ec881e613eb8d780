/** f_truncate */
module FileTruncate {
  import opened Words
  import opened FatLayout
  import opened Geometry
  import opened Volume
  import opened Chains
  import opened Allocator
  import opened FileMap
  import opened FileState
  import opened Effects
  import opened LinkMap
  import opened Files
  import opened FileRead
  import opened FileGrow
  import opened FileFollow
  import Arith

  /** Number of clusters that `pos` bytes take. */
  function ClustersFor(g: Geometry, pos: nat): (n: nat)
    requires g.csize > 0
    ensures ClusterPos(g, n) >= pos && (n > 0 ==> ClusterPos(g, n - 1) < pos)
    ensures n == if pos == 0 then 0 else CursorIndex(g, pos) + 1
  {
    if pos == 0 then 0
    else
      IndexByBytes(g, pos);
      CursorIndex(g, pos) + 1
  }

  lemma ChainClosed(fat: seq<int>, chain: seq<int>)
    requires IsChainOrEmpty(fat, chain)
    ensures Closed(fat, set c | c in chain)
  {
    forall c | c in chain && 2 <= fat[c] < |fat|
      ensures fat[c] in chain
    {
      var i :| 0 <= i < |chain| && chain[i] == c;
      LinkOrEnd(fat, chain, i);
    }
  }

  /** A file whose clusters are cut to `n` has the bytes it had in those. */
  lemma AfterCut(g: Geometry, v: seq<Sector>, chain: seq<int>, sect: int, buf: seq<byte>, content: seq<byte>,
                 n: nat, pos: nat, clust: int)
    requires Holds(g, v, chain, false, sect, buf, content)
    requires n <= |chain| && pos <= |content| && n == ClustersFor(g, pos)
    ensures Holds(g, v, chain[..n], false, sect, buf, content[..pos])
    ensures CursorAt(g, chain, pos, clust) ==> CursorAt(g, chain[..n], pos, clust)
    ensures BufferAt(g, chain, pos, sect) ==> BufferAt(g, chain[..n], pos, sect)
  {
    hide AllBytes;
    var chain' := chain[..n];
    SectorsGrow(g, v, chain', chain);
    AllBytesGrow(g, v, chain', chain);
    assert SectorCount(g, chain') * SS == ClusterPos(g, n);
    if pos % SS != 0 {
      BelowEnd(pos, SectorCount(g, chain'));
    }
  }

  lemma BelowEnd(pos: nat, n: nat)
    requires pos <= n * SS && pos % SS != 0
    ensures pos / SS < n
  {
  }

  /** Device sector `s` is a sector of the first `n` clusters of the file. */
  ghost predicate InFirst(g: Geometry, chain: seq<int>, n: nat, s: int) {
    exists m: nat :: m < n * g.csize && IsSector(g, chain, m, s)
  }

  /** Number of clusters that f_truncate leaves the file. */
  ghost function Kept(fp: File): nat
    requires fp.fs.g.csize > 0
    reads fp`fptr, fp`objsize, fp`chain
  {
    if fp.fptr < fp.objsize then ClustersFor(fp.fs.g, fp.fptr) else |fp.chain|
  }

  /** The sector in the buffer is one that f_truncate leaves the file. */
  ghost predicate KeepsBuffer(fp: File)
    reads fp`fptr, fp`objsize, fp`chain, fp`sect
  {
    fp.sect != 0 ==> fp.fs.g.csize > 0 && InFirst(fp.fs.g, fp.chain, Kept(fp), fp.sect)
  }

  /** Inside a sector the buffer is always kept. */
  lemma InsideKeeps(fp: File)
    requires fp.Valid() && fp.fptr % SS != 0
    ensures KeepsBuffer(fp)
  {
    hide File.Ready, ClustersFor, InFirst;
    InsideFirst(fp.fs.g, fp.chain, fp.fptr, fp.sect);
  }

  lemma InsideFirst(g: Geometry, chain: seq<int>, pos: nat, sect: int)
    requires g.csize > 0 && AllClusters(g, chain) && pos % SS != 0 && BufferAt(g, chain, pos, sect)
    ensures InFirst(g, chain, ClustersFor(g, pos), sect) && InFirst(g, chain, |chain|, sect)
  {
    hide ClustersFor, CursorIndex, SectorNo;
    var n := ClustersFor(g, pos);
    BelowEnd(pos, n * g.csize);
    assert IsSector(g, chain, pos / SS, sect);
  }

  /** For a buffer with sector number `m` of the file: it is kept exactly if that sector is in the clusters
      that are left. */
  lemma BufferGivenBack(fp: File, m: nat)
    requires fp.Valid() && IsSector(fp.fs.g, fp.chain, m, fp.sect)
    ensures fp.fs.g.csize > 0 && (KeepsBuffer(fp) <==> m < Kept(fp) * fp.fs.g.csize)
  {
    hide Volume.Valid, Volume.View, Holds, InFile, IsChainOrEmpty, Mappable;
    fp.Parts();
    assert fp.sect != 0 by { NonzeroSector(fp.fs.g, fp.fs.View(), fp.chain, m, fp.sect); }
    if k: nat :| k < Kept(fp) * fp.fs.g.csize && IsSector(fp.fs.g, fp.chain, k, fp.sect) {
      MappableDistinct(fp.fs.g, fp.fs.View(), fp.chain);
      SectorNoInjective(fp.fs.g, fp.chain, k, m);
    }
  }

  lemma MappableDistinct(g: Geometry, v: seq<Sector>, chain: seq<int>)
    requires Mappable(g, v, chain)
    ensures Distinct(chain)
  {
  }

  lemma NonzeroSector(g: Geometry, v: seq<Sector>, chain: seq<int>, m: nat, s: int)
    requires Mappable(g, v, chain) && IsSector(g, chain, m, s)
    ensures s != 0
  {
    SectorsInside(g, chain);
  }

  /** The sectors of the first clusters are the sectors of the cut file. */
  lemma FirstSectors(g: Geometry, chain: seq<int>, n: nat, s: int)
    requires g.csize > 0 && AllClusters(g, chain) && n <= |chain|
    ensures InFile(g, chain[..n], s) <==> InFirst(g, chain, n, s)
  {
    var part := chain[..n];
    Arith.MulMono(n, |chain|, g.csize);
    if m: nat :| m < n * g.csize && IsSector(g, chain, m, s) {
      ClusterIndex(g, part, m);
      assert SectorNo(g, part, m) == s;
    }
    if InFile(g, part, s) {
      var m :| 0 <= m < SectorCount(g, part) && SectorNo(g, part, m) == s;
      ClusterIndex(g, part, m);
      assert IsSector(g, chain, m, s);
    }
  }

  /** The part of `chain` past index `n` has been given back. */
  ghost predicate CutTo(s: Snapshot, s': Snapshot, chain: seq<int>, n: nat) {
    && n <= |chain|
    && IsChainOrEmpty(s'.fat, chain[..n])
    && Exchanges(s.fat, chain, s'.fat, chain[..n])
  }

  /** A cut chain ends with a fresh end mark. */
  lemma CutEndSafe(g: Geometry, s: Snapshot, s': Snapshot, chain: seq<int>, n: nat)
    requires IsChainOrEmpty(s.fat, chain) && |s.fat| == g.nFatEnt <= Eoc(g.fsType) && n < |chain|
    requires n > 0 ==> 2 <= chain[n - 1] < |s.fat|
    requires s'.fat == Freed(if n == 0 then s.fat else s.fat[chain[n - 1] := Eoc(g.fsType)], chain[n]).1
    ensures g.fsType == Fat12 && EndSafe(g, s.fat, chain) ==> EndSafe(g, s'.fat, chain[..n])
  {
    if n > 0 {
      ChainCut(s.fat, chain, n, Eoc(g.fsType));
      PartsApart(s.fat, chain, n);
      assert chain[n - 1] in chain[..n];
    }
  }

  lemma CutNothing(s: Snapshot, s': Snapshot, chain: seq<int>)
    requires s'.fat == s.fat && IsChainOrEmpty(s.fat, chain)
    ensures CutTo(s, s', chain, |chain|)
  {
    assert chain[..|chain|] == chain;
  }

  lemma CutFreed(s: Snapshot, s': Snapshot, chain: seq<int>, n: nat, eoc: int)
    requires IsChainOrEmpty(s.fat, chain) && n < |chain| && eoc >= |s.fat|
    ensures 2 <= chain[n] < |s.fat| && (n > 0 ==> 2 <= chain[n - 1] < |s.fat| && s.fat[chain[n - 1]] != 0)
    ensures
      var r := Freed(if n == 0 then s.fat else s.fat[chain[n - 1] := eoc], chain[n]);
      r.0 == Ok && (s'.fat == r.1 ==> CutTo(s, s', chain, n))
  {
    if n == 0 {
      FreedChain(s.fat, chain);
      assert chain[..0] == [];
    } else {
      LinkOrEnd(s.fat, chain, n - 1);
      CutReplaces(s.fat, chain, n, eoc);
    }
  }

  lemma SparedOutside(g: Geometry, s: Snapshot, s': Snapshot, chain: seq<int>)
    requires g.FatsEnd() <= g.database && Updates(g, s, s') && s.faults <= s'.faults
    requires SameOutside((set c | c in chain), s.fat, s'.fat)
    ensures Spares(g, s, s', chain)
  {
    SparesUpdates(g, s, s', chain);
  }

  /** remove_chain on behalf of a file: gives back the clusters from index `n` on. */
  method FreeTail(fp: File, clst: u32, pclst: u32, ghost n: nat) returns (res: FResult)
    requires Buffered(fp) && IsChainOrEmpty(fp.fs.fat, fp.chain) && n < |fp.chain|
    requires clst == fp.chain[n] && pclst == if n == 0 then 0 else fp.chain[n - 1]
    modifies fp.fs`winsect, fp.fs`wflag, fp.fs`fat, fp.fs`freeClst, fp.fs`fsiDirty, fp.fs.win, fp.fs.disk
    ensures fp.fs.Valid() && old(fp.fs.disk.faults) <= fp.fs.disk.faults
    ensures Spares(fp.fs.g, old(fp.fs.Snap()), fp.fs.Snap(), fp.chain)
    ensures res == Ok || (res == DiskErr && old(fp.fs.disk.faults) < fp.fs.disk.faults)
    ensures res == Ok ==> Buffered(fp) && CutTo(old(fp.fs.Snap()), fp.fs.Snap(), fp.chain, n)
    ensures SameOutsideFats(fp.fs.g, old(fp.fs.View()), fp.fs.View())
    ensures res == Ok && n <= |fp.chain| && fp.fs.g.fsType == Fat12 && EndSafe(fp.fs.g, old(fp.fs.fat), fp.chain) ==>
              EndSafe(fp.fs.g, fp.fs.fat, fp.chain[..n])
    ensures res == Ok && n <= |fp.chain| ==>
              fp.fs.freeClst as int == Recount(old(fp.fs.freeClst), fp.fs.g.nFatEnt - 2, |fp.chain| - n)
    ensures res == Ok && old(CountExact(fp.fs)) ==> CountExact(fp.fs)
  {
    hide Volume.Valid, Volume.View, Volume.Snap, Holds, InFile, Spares, Updates, IsChainOrEmpty, CountExact, Closed,
         SameOutside, CutTo, Freed, EndSafe, Recount, Zeros;
    ghost var s, chain := fp.fs.Snap(), fp.chain;
    ghost var zone := set c | c in chain;
    fp.fs.Contents();
    ChainClosed(s.fat, chain);
    CutFreed(s, s, chain, n, Eoc(fp.fs.g.fsType));
    res := RemoveChain(fp.fs, clst, pclst, zone);
    fp.fs.Contents();
    SparedOutside(fp.fs.g, s, fp.fs.Snap(), chain);
    UpdatesView(fp.fs.g, s, fp.fs.Snap());
    if res != DiskErr {
      CutFreed(s, fp.fs.Snap(), chain, n, Eoc(fp.fs.g.fsType));
      CutCounted(s, fp.fs.Snap(), chain, n);
      CutEndSafe(fp.fs.g, s, fp.fs.Snap(), chain, n);
      BufferedAgain(fp, s);
    }
  }

  lemma BufferedAgain(fp: File, s: Snapshot)
    requires fp.fs.Valid() && fp.buf.Length == SS && fp.buf != fp.fs.win
    requires Holds(fp.fs.g, s.view, fp.chain, fp.dirty, fp.sect, fp.buf[..], fp.content)
    requires Updates(fp.fs.g, s, fp.fs.Snap()) && fp.fs.g.InFat(fp.fs.winsect)
    ensures Buffered(fp)
  {
    hide Volume.Valid, Volume.View, InFile, AllBytes;
    fp.fs.Contents();
    HoldsOutsideFats(fp.fs.g, s.view, fp.fs.View(), fp.chain, fp.dirty, fp.sect, fp.buf[..], fp.content);
    NotInFats(fp.fs.g, fp.fs.View(), fp.chain, fp.dirty, fp.sect, fp.buf[..], fp.content, fp.fs.winsect);
  }

  lemma NotInFats(g: Geometry, v: seq<Sector>, chain: seq<int>, dirty: bool, sect: int, buf: seq<byte>,
                  content: seq<byte>, w: u32)
    requires Holds(g, v, chain, dirty, sect, buf, content) && g.FatsEnd() <= g.database && g.InFat(w)
    ensures !InFile(g, chain, w)
  {
    if InFile(g, chain, w) {
      InFileBounds(g, v, chain, w);
    }
  }

  /** The part of f_truncate that gives back the clusters past the file pointer. */
  method GiveBack(fp: File, ghost n: nat) returns (res: FResult)
    requires fp.Valid() && fp.fptr < fp.objsize && n == ClustersFor(fp.fs.g, fp.fptr)
    modifies fp`sclust
    modifies fp.fs`winsect, fp.fs`wflag, fp.fs`fat, fp.fs`freeClst, fp.fs`fsiDirty, fp.fs.win, fp.fs.disk
    ensures fp.fs.Valid() && old(fp.fs.disk.faults) <= fp.fs.disk.faults
    ensures Spares(fp.fs.g, old(fp.fs.Snap()), fp.fs.Snap(), fp.chain)
    ensures res == Ok || (res == DiskErr && old(fp.fs.disk.faults) < fp.fs.disk.faults)
    ensures res == Ok ==> Buffered(fp) && CutTo(old(fp.fs.Snap()), fp.fs.Snap(), fp.chain, n)
    ensures SameOutsideFats(fp.fs.g, old(fp.fs.View()), fp.fs.View())
    ensures res == Ok && n <= |fp.chain| && fp.fs.g.fsType == Fat12 && EndSafe(fp.fs.g, old(fp.fs.fat), fp.chain) ==>
              EndSafe(fp.fs.g, fp.fs.fat, fp.chain[..n])
    ensures res == Ok ==> fp.sclust == if n == 0 then 0 else fp.chain[0]
    ensures res == Ok && n <= |fp.chain| ==>
              fp.fs.freeClst as int == Recount(old(fp.fs.freeClst), fp.fs.g.nFatEnt - 2, |fp.chain| - n)
    ensures res == Ok && old(CountExact(fp.fs)) ==> CountExact(fp.fs)
  {
    hide Volume.Valid, Volume.View, Volume.Snap, Holds, InFile, Spares, Updates, Keeps, IsChainOrEmpty, CountExact,
         CutTo, Recount, CursorIndex, ClusterPos, Exchanges, EndSafe;
    fp.Parts();
    fp.Capacity();
    EnoughClusters(fp.fs.g, fp.chain, fp.fptr, fp.objsize);
    SameFats(fp.fs.g, fp.fs.View());
    if fp.fptr == 0 {
      res := FreeTail(fp, fp.sclust, 0, 0);
      fp.sclust := 0;
    } else {
      ghost var s := fp.fs.Snap();
      var ncl := NextToFree(fp, n - 1);
      res := Ok;
      if ncl == DISK_ERROR { res := DiskErr; }
      if ncl == INTERNAL_ERROR { res := IntErr; }
      if res == Ok && ncl < fp.fs.g.nFatEnt {
        ghost var s1 := fp.fs.Snap();
        res := FreeTail(fp, ncl, fp.clust, n);
        SparesTrans(fp.fs.g, s, s1, fp.fs.Snap(), fp.chain);
        SameStart(s, s1, fp.fs.Snap(), fp.chain, n);
        SameTwice(fp.fs.g, s.view, s1.view, fp.fs.View());
      } else {
        CutNothing(s, fp.fs.Snap(), fp.chain);
        assert fp.chain[..|fp.chain|] == fp.chain;
        Uncounted(fp.fs.freeClst, fp.fs.g.nFatEnt - 2);
      }
    }
  }

  lemma EnoughClusters(g: Geometry, chain: seq<int>, pos: nat, size: nat)
    requires g.csize > 0 && pos < size <= SectorCount(g, chain) * SS
    ensures ClustersFor(g, pos) <= |chain| && 0 < |chain|
  {
    if pos > 0 {
      ClusterIndex(g, chain, (pos - 1) / SS);
    }
  }

  lemma SameTwice(g: Geometry, v: seq<Sector>, v': seq<Sector>, v'': seq<Sector>)
    requires SameOutsideFats(g, v, v') && SameOutsideFats(g, v', v'')
    ensures SameOutsideFats(g, v, v'')
  {
  }

  lemma SameStart(s: Snapshot, s1: Snapshot, s': Snapshot, chain: seq<int>, n: nat)
    requires s1.fat == s.fat && s.faults <= s1.faults <= s'.faults
    ensures CutTo(s1, s', chain, n) ==> CutTo(s, s', chain, n)
  {
  }

  /** get_fat at the last cluster that stays, the one with index `k`. */
  method NextToFree(fp: File, ghost k: nat) returns (ncl: u32)
    requires fp.Ready() && k < |fp.chain| && fp.clust == fp.chain[k]
    modifies fp.fs`winsect, fp.fs`wflag, fp.fs.win, fp.fs.disk
    ensures fp.Ready() && Buffered(fp) && old(fp.fs.disk.faults) <= fp.fs.disk.faults
    ensures SameOutsideFats(fp.fs.g, old(fp.fs.View()), fp.fs.View())
    ensures Spares(fp.fs.g, old(fp.fs.Snap()), fp.fs.Snap(), fp.chain)
    ensures if ncl == DISK_ERROR then old(fp.fs.disk.faults) < fp.fs.disk.faults
            else if k + 1 < |fp.chain| then ncl == fp.chain[k + 1] && 2 <= ncl < fp.fs.g.nFatEnt
            else ncl >= fp.fs.g.nFatEnt
  {
    hide Volume.Valid, Volume.View, Volume.Snap, Holds, InFile, Spares, Keeps, IsChain, Distinct;
    fp.Parts();
    LinkOrEnd(fp.fs.fat, fp.chain, k);
    ncl := fp.fs.GetFat(fp.clust);
    fp.fs.Contents();
    SparesKeeps(fp.fs.g, old(fp.fs.Snap()), fp.fs.Snap(), fp.chain);
    KeepsUpdates(fp.fs.g, old(fp.fs.Snap()), fp.fs.Snap());
    UpdatesView(fp.fs.g, old(fp.fs.Snap()), fp.fs.Snap());
    ReadyAgain(fp, old(fp.fs.Snap()), old(fp.fs.winsect));
  }

  /** The end of f_truncate, with the clusters given back: a buffer newer than its sector is written,
      even to a sector that belongs to the file no longer. */
  method FinishCut(fp: File, ghost s: Snapshot, ghost n: nat) returns (res: FResult)
    requires Buffered(fp) && |fp.content| == fp.objsize == fp.fptr && n == ClustersFor(fp.fs.g, fp.fptr)
    requires CutTo(s, fp.fs.Snap(), fp.chain, n) && Spares(fp.fs.g, s, fp.fs.Snap(), fp.chain)
              && s.faults <= fp.fs.disk.faults
    requires fp.sclust == if n == 0 then 0 else fp.chain[0]
    requires CursorAt(fp.fs.g, fp.chain, fp.fptr, fp.clust) && BufferAt(fp.fs.g, fp.chain, fp.fptr, fp.sect)
    modifies fp`chain, fp`dirty, fp.fs.disk
    ensures fp.fs.Valid() && old(fp.fs.disk.faults) <= fp.fs.disk.faults
    ensures res == Ok || (res == DiskErr && old(fp.fs.disk.faults) < fp.fs.disk.faults)
    ensures res == Ok ==> fp.Valid() && fp.chain == old(fp.chain)[..n]
    ensures res != Ok ==> fp.chain == old(fp.chain)
    ensures res == Ok ==> fp.fs.View() == Overlay(old(fp.fs.View()), old(fp.dirty), fp.sect, fp.buf[..])
    ensures Spares(fp.fs.g, s, fp.fs.Snap(), old(fp.chain))
    ensures res == Ok ==> Replaces(s.fat, old(fp.chain), fp.fs.fat, fp.chain)
    ensures Confined(fp.fs.g, s, old(fp.chain), fp.fs.Snap(), fp.chain)
  {
    hide Volume.Valid, Volume.View, Volume.Snap, InFile, Spares, Confined, IsChainOrEmpty, Exchanges, CursorAt,
         BufferAt, AllBytes, CursorIndex, ClusterPos, Mappable, SectorCount;
    ghost var s1, chain := fp.fs.Snap(), fp.chain;
    var ok := true;
    if fp.dirty {
      ok := WriteBack(fp);
      SparesTrans(fp.fs.g, s, s1, fp.fs.Snap(), chain);
    }
    if !ok {
      ConfinedSpares(fp.fs.g, s, fp.fs.Snap(), chain);
      return DiskErr;
    }
    AfterCut(fp.fs.g, fp.fs.View(), chain, fp.sect, fp.buf[..], fp.content, n, fp.fptr, fp.clust);
    NotInPart(fp.fs.g, chain, n, fp.fs.winsect);
    fp.chain := chain[..n];
    CutConfined(fp.fs.g, s, s1, fp.fs.Snap(), chain, n);
    assert fp.content[..fp.fptr] == fp.content;
    res := Ok;
  }

  lemma NotInPart(g: Geometry, chain: seq<int>, n: nat, x: int)
    requires g.csize > 0 && AllClusters(g, chain) && n <= |chain|
    ensures InFile(g, chain[..n], x) ==> InFile(g, chain, x)
  {
    var part := chain[..n];
    if InFile(g, part, x) {
      var m :| 0 <= m < SectorCount(g, part) && SectorNo(g, part, m) == x;
      Arith.MulMono(n, |chain|, g.csize);
      assert SectorNo(g, chain, m) == x;
    }
  }

  lemma CutConfined(g: Geometry, s: Snapshot, s1: Snapshot, s': Snapshot, chain: seq<int>, n: nat)
    requires CutTo(s, s1, chain, n) && s'.fat == s1.fat && s.faults <= s1.faults <= s'.faults
    requires Spares(g, s, s', chain)
    ensures Confined(g, s, chain, s', chain[..n]) && IsChainOrEmpty(s'.fat, chain[..n])
  {
    hide Exchanges, IsChainOrEmpty;
    assert forall c :: c in chain[..n] ==> c in chain;
  }

  lemma BufferedShorter(fp: File, content: seq<byte>)
    requires fp.fs.Valid() && fp.buf.Length == SS && fp.buf != fp.fs.win && !InFile(fp.fs.g, fp.chain, fp.fs.winsect)
    requires Holds(fp.fs.g, fp.fs.View(), fp.chain, fp.dirty, fp.sect, fp.buf[..], content) && fp.content <= content
    ensures Buffered(fp)
  {
    hide Volume.Valid, Volume.View, InFile, AllBytes;
  }

  lemma CutCounted(s: Snapshot, s': Snapshot, chain: seq<int>, n: nat)
    requires IsChainOrEmpty(s.fat, chain) && CutTo(s, s', chain, n)
    ensures n <= |chain| && Zeros(s'.fat) - Zeros(s.fat) == |chain| - n
  {
    Conserved(s.fat, chain, s'.fat, chain[..n]);
  }

  lemma Uncounted(count: int, most: int)
    ensures Recount(count, most, 0) == count
  {
  }

  lemma Unreplaced(fp: File)
    requires fp.Ready()
    ensures Replaces(fp.fs.fat, fp.chain, fp.fs.fat, fp.chain)
  {
    hide Volume.Valid, Volume.View, Holds, InFile;
  }

  /** The main part of f_truncate. */
  method Cut(fp: File) returns (res: FResult)
    requires fp.Valid() && fp.fptr < fp.objsize
    modifies fp`chain, fp`sclust, fp`content, fp`objsize, fp`modified, fp`dirty
    modifies fp.fs`winsect, fp.fs`wflag, fp.fs`fat, fp.fs`freeClst, fp.fs`fsiDirty, fp.fs.win, fp.fs.disk
    ensures fp.fs.Valid() && old(fp.fs.disk.faults) <= fp.fs.disk.faults
    ensures Confined(fp.fs.g, old(fp.fs.Snap()), old(fp.chain), fp.fs.Snap(), fp.chain)
    ensures res == Ok || (res == DiskErr && old(fp.fs.disk.faults) < fp.fs.disk.faults)
    ensures res == Ok ==> fp.Valid() && fp.modified && fp.content == old(fp.content)[..fp.fptr]
    ensures res != Ok ==> fp.chain == old(fp.chain)
    ensures res == Ok && old(LookAheadSafe(fp)) ==> LookAheadSafe(fp)
    ensures res == Ok ==> fp.fs.g.csize > 0 && ClustersFor(fp.fs.g, fp.fptr) <= |old(fp.chain)|
                          && fp.chain == old(fp.chain)[..ClustersFor(fp.fs.g, fp.fptr)]
    ensures Spares(fp.fs.g, old(fp.fs.Snap()), fp.fs.Snap(), old(fp.chain))
    ensures res == Ok ==> Replaces(old(fp.fs.fat), old(fp.chain), fp.fs.fat, fp.chain)
    ensures res == Ok ==>
              fp.fs.freeClst as int == Recount(old(fp.fs.freeClst), fp.fs.g.nFatEnt - 2, |old(fp.chain)| - |fp.chain|)
    ensures res == Ok ==>
              fp.buf.Length == SS
                  && SameOutsideFats(fp.fs.g, Overlay(old(fp.fs.View()), old(fp.dirty), fp.sect, fp.buf[..]),
                                      fp.fs.View())
    ensures fp.fs.disk.faults == old(fp.fs.disk.faults) && old(CountExact(fp.fs)) ==> CountExact(fp.fs)
  {
    hide Recount, Replaces, Volume.Valid, Volume.View, Volume.Snap, Holds, InFile, Spares, Confined, IsChainOrEmpty,
         CountExact, File.Ready, CutTo, CursorAt, BufferAt, EndSafe, SameOutsideFats;
    fp.Capacity();
    ghost var n := ClustersFor(fp.fs.g, fp.fptr);
    ghost var s, content := fp.fs.Snap(), fp.content;
    EnoughClusters(fp.fs.g, fp.chain, fp.fptr, fp.objsize);
    res := GiveBack(fp, n);
    fp.content := fp.content[..fp.fptr];
    fp.objsize := fp.fptr;
    fp.modified := true;
    if res == Ok {
      BufferedShorter(fp, content);
      ghost var v := fp.fs.View();
      res := FinishCut(fp, s, n);
      if res == Ok {
        SameOverlay(fp.fs.g, s.view, v, old(fp.dirty), fp.sect, fp.buf[..]);
      }
    } else {
      ConfinedSpares(fp.fs.g, s, fp.fs.Snap(), fp.chain);
    }
  }

  lemma SameOverlay(g: Geometry, v: seq<Sector>, v': seq<Sector>, dirty: bool, sect: int, buf: Sector)
    requires SameOutsideFats(g, v, v')
    ensures SameOutsideFats(g, Overlay(v, dirty, sect, buf), Overlay(v', dirty, sect, buf))
  {
  }

  /** f_truncate: the file ends at the file pointer, and keeps exactly the clusters it needs. */
  method Truncate(fp: File) returns (res: FResult)
    requires fp.fs.Valid() && (fp.err == Ok ==> fp.Valid())
    modifies fp`chain, fp`sclust, fp`content, fp`objsize, fp`modified, fp`dirty, fp`err
    modifies fp.fs`winsect, fp.fs`wflag, fp.fs`fat, fp.fs`freeClst, fp.fs`fsiDirty, fp.fs.win, fp.fs.disk
    ensures fp.fs.Valid() && old(fp.fs.disk.faults) <= fp.fs.disk.faults
    ensures fp.err == Ok ==> fp.Valid()
    ensures fp.err == Ok && old(LookAheadSafe(fp)) ==> LookAheadSafe(fp)
    ensures Confined(fp.fs.g, old(fp.fs.Snap()), old(fp.chain), fp.fs.Snap(), fp.chain)
    ensures Spares(fp.fs.g, old(fp.fs.Snap()), fp.fs.Snap(), old(fp.chain))
    ensures res == Ok ==> Replaces(old(fp.fs.fat), old(fp.chain), fp.fs.fat, fp.chain)
    ensures res == Ok ==>
              fp.fs.freeClst as int == Recount(old(fp.fs.freeClst), fp.fs.g.nFatEnt - 2, |old(fp.chain)| - |fp.chain|)
    ensures old(fp.err) != Ok ==> res == fp.err == old(fp.err) && unchanged(fp, fp.fs, fp.fs.win, fp.fs.disk)
    ensures old(fp.err) == Ok && !fp.canWrite ==> res == Denied && unchanged(fp, fp.fs, fp.fs.win, fp.fs.disk)
    ensures old(fp.err) == Ok && fp.canWrite ==>
              res == fp.err && (res == Ok || (res == DiskErr && old(fp.fs.disk.faults) < fp.fs.disk.faults))
    ensures res == Ok ==> fp.content == old(fp.content)[..fp.fptr]
    ensures res == Ok && fp.fptr < |old(fp.content)| ==>
              fp.fs.g.csize > 0 && ClustersFor(fp.fs.g, fp.fptr) <= |old(fp.chain)|
                  && fp.chain == old(fp.chain)[..ClustersFor(fp.fs.g, fp.fptr)]
    ensures res == Ok && fp.fptr == |old(fp.content)| ==>
              fp.chain == old(fp.chain) && unchanged(fp.fs, fp.fs.win, fp.fs.disk)
    ensures res != Ok ==> fp.chain == old(fp.chain)
    ensures res == Ok ==> fp.modified == (old(fp.modified) || fp.fptr < |old(fp.content)|)
    // the buffer is still for a sector of the file exactly if that was one of the sectors kept
    ensures res == Ok ==> (BufferOwn(fp) <==> old(KeepsBuffer(fp)))
    // a sector newer in the buffer has been written, and no other
    ensures res == Ok && fp.fptr < |old(fp.content)| ==>
              fp.buf.Length == SS
                  && SameOutsideFats(fp.fs.g, Overlay(old(fp.fs.View()), old(fp.dirty), fp.sect, fp.buf[..]),
                                      fp.fs.View())
    ensures fp.fs.disk.faults == old(fp.fs.disk.faults) && old(CountExact(fp.fs)) ==> CountExact(fp.fs)
  {
    hide Recount, Replaces, Spares, IsChainOrEmpty, Volume.Valid, Volume.View, Volume.Snap, Confined, InFirst, InFile,
         CountExact, File.Ready, CursorAt, BufferAt, LookAheadSafe, SameOutsideFats, ClustersFor, CsizeOk, SectorCount;
    SparesSame(fp.fs.g, fp.fs.Snap(), fp.chain);
    Uncounted(fp.fs.freeClst, fp.fs.g.nFatEnt - 2);
    ConfinedNot(fp.fs.g, fp.fs.Snap(), fp.chain);
    if fp.err != Ok { return fp.err; }
    if !fp.canWrite { return Denied; }
    fp.Capacity();
    Unreplaced(fp);
    res := Ok;
    ghost var chain, n := fp.chain, Kept(fp);
    if fp.fptr < fp.objsize {
      res := Cut(fp);
      if res != Ok {
        fp.err := res;
      }
    }
    if res == Ok {
      assert fp.chain == chain[..n];
      FirstSectors(fp.fs.g, chain, n, fp.sect);
    }
  }

  lemma ConfinedNot(g: Geometry, s: Snapshot, chain: seq<int>)
    ensures Confined(g, s, chain, s, chain)
  {
  }

  lemma ConfinedSpares(g: Geometry, s: Snapshot, s': Snapshot, chain: seq<int>)
    requires Spares(g, s, s', chain) && s.faults < s'.faults
    ensures Confined(g, s, chain, s', chain)
  {
  }
}
