/** The two ways of f_lseek to move the file pointer: following the chain, and asking the link map. */
module FileFollow {
  import opened Words
  import opened Flatten
  import opened FatLayout
  import opened Geometry
  import opened Volume
  import opened Chains
  import opened Allocator
  import opened FileMap
  import opened FileState
  import opened Effects
  import opened LinkMap
  import opened Files
  import opened FileRead
  import opened FileGrow
  import opened FileWrite
  import Arith

  /** The fields of a file object that say where it stands. */
  datatype Cursor = Cursor(fptr: int, clust: int, sect: int, dirty: bool, buf: seq<byte>)

  ghost function CursorOf(fp: File): Cursor
    reads fp`fptr, fp`clust, fp`sect, fp`dirty, fp.buf
  {
    Cursor(fp.fptr, fp.clust, fp.sect, fp.dirty, fp.buf[..])
  }

  /** Where a seek to position `ofs` inside the file leads from cursor `c`, in a volume with sectors
      `v`: inside a sector that sector is in the buffer, on a boundary the buffer stays as it is. */
  ghost function Sought(g: Geometry, v: seq<Sector>, chain: seq<int>, c: Cursor, ofs: nat): Cursor
    requires g.csize > 0 && AllClusters(g, chain) && Seekable(g, v, chain, ofs)
  {
    var c' := c.(fptr := ofs, clust := if ofs == 0 then c.clust else chain[CursorIndex(g, ofs)]);
    if ofs % SS == 0 || c.sect == SectorNo(g, chain, ofs / SS) then c'
    else c'.(sect := SectorNo(g, chain, ofs / SS), dirty := false, buf := v[SectorNo(g, chain, ofs / SS)])
  }

  /** A seek to `ofs` has led from cursor `c` to cursor `c'`. */
  ghost predicate Landed(g: Geometry, v: seq<Sector>, chain: seq<int>, c: Cursor, c': Cursor, ofs: nat) {
    g.csize > 0 && AllClusters(g, chain) && Seekable(g, v, chain, ofs) && c' == Sought(g, v, chain, c, ofs)
  }

  ghost predicate Seekable(g: Geometry, v: seq<Sector>, chain: seq<int>, ofs: nat)
    requires g.csize > 0 && AllClusters(g, chain)
  {
    && (ofs > 0 ==> 0 <= CursorIndex(g, ofs) < |chain|)
    && (ofs % SS != 0 ==> 0 <= ofs / SS < SectorCount(g, chain) && 0 <= SectorNo(g, chain, ofs / SS) < |v|)
  }

  lemma InsideSeekable(g: Geometry, v: seq<Sector>, chain: seq<int>, ofs: nat)
    requires Mappable(g, v, chain) && ofs <= SectorCount(g, chain) * SS
    ensures Seekable(g, v, chain, ofs)
  {
    SectorsInside(g, chain);
    if ofs > 0 {
      ClusterIndex(g, chain, (ofs - 1) / SS);
    }
  }

  // ------------------------------------------------------------------------------------------
  // Positions and clusters

  lemma IndexByBytes(g: Geometry, pos: nat)
    requires g.csize > 0 && pos > 0
    ensures ClusterBytes(g) > 0 && (pos - 1) / ClusterBytes(g) == CursorIndex(g, pos)
    ensures ClusterPos(g, CursorIndex(g, pos)) < pos <= ClusterPos(g, CursorIndex(g, pos) + 1)
  {
    var b := ClusterBytes(g);
    Arith.ModSplit(pos - 1, SS, g.csize);
    assert b == SS * g.csize;
    var k := (pos - 1) / b;
    assert (k + 1) * b == k * b + b;
  }

  lemma IndexFromBytes(g: Geometry, pos: nat, k: nat)
    requires g.csize > 0 && ClusterPos(g, k) < pos <= ClusterPos(g, k + 1)
    ensures CursorIndex(g, pos) == k
  {
    IndexByBytes(g, pos);
    var b := ClusterBytes(g);
    assert (k + 1) * b == k * b + b;
    Arith.DivModUnique(pos - 1, b, k, pos - 1 - k * b);
  }

  lemma ChainBytes(g: Geometry, chain: seq<int>, k: nat, pos: nat)
    requires g.csize > 0 && pos <= SectorCount(g, chain) * SS && ClusterPos(g, k) < pos
    ensures k < |chain|
  {
    assert SectorCount(g, chain) * SS == |chain| * ClusterBytes(g);
    if k >= |chain| {
      Arith.MulMono(|chain|, k, ClusterBytes(g));
    }
  }

  /** The sector of a position `o` bytes into the cluster with index `k`. */
  lemma SectorPlace(g: Geometry, chain: seq<int>, k: nat, o: nat)
    requires g.csize > 0 && AllClusters(g, chain) && k < |chain| && 0 < o <= ClusterBytes(g) && o % SS != 0
    ensures var pos := ClusterPos(g, k) + o;
            && pos % SS == o % SS && 0 <= pos / SS < SectorCount(g, chain)
            && SectorNo(g, chain, pos / SS) == g.ClusterSector(chain[k]) + o / SS
  {
    var n := k * g.csize + o / SS;
    var pos := ClusterPos(g, k) + o;
    assert k * ClusterBytes(g) == (k * g.csize) * SS;
    assert o == o / SS * SS + o % SS;
    Arith.DivModUnique(pos, SS, n, o % SS);
    Arith.DivModUnique(n, g.csize, k, o / SS);
    SectorOfCluster(g, chain, n, k);
  }

  // ------------------------------------------------------------------------------------------
  // The normal seek

  /** The file pointer stands at the start of the cluster with index `k`, which is the current one. */
  ghost predicate OnCluster(fp: File, k: int)
    reads fp`chain, fp`clust, fp`fptr, fp.fs
  {
    0 <= k < |fp.chain| && fp.clust == fp.chain[k] && fp.fptr == ClusterPos(fp.fs.g, k)
  }

  /** The start of a seek to `ofs`: from the current cluster if the target lies there or further on,
      else from the first one, which is allocated if there is none. `clst` is 0 if it cannot be. */
  method SeekStart(fp: File, ofs: u32, ifptr: u32) returns (res: FResult, clst: u32, rest: u32, ghost k: int)
    requires fp.Ready() && fp.Mapped() && fp.cltbl == null && CursorAt(fp.fs.g, fp.chain, ifptr, fp.clust)
    requires fp.fptr == 0 < ofs
    modifies fp`fptr, fp`clust, fp`chain, fp`sclust
    modifies fp.fs`winsect, fp.fs`wflag, fp.fs`fat, fp.fs`lastClst, fp.fs`freeClst, fp.fs`fsiDirty, fp.fs.win,
             fp.fs.disk
    ensures fp.fs.Valid() && old(fp.fs.disk.faults) <= fp.fs.disk.faults
    ensures Advances(fp.fs.g, old(fp.fs.Snap()), old(fp.chain), fp.fs.Snap(), fp.chain)
    ensures Updates(fp.fs.g, old(fp.fs.Snap()), fp.fs.Snap())
    ensures old(LookAheadSafe(fp)) ==> LookAheadSafe(fp)
    ensures res == Ok || Excused(fp.fs, old(fp.fs.disk.faults), res)
    ensures res == Ok ==> fp.Ready()
    ensures res == Ok && clst != 0 ==> clst == fp.clust && OnCluster(fp, k) && 0 < rest && fp.fptr + rest == ofs
    ensures res == Ok && clst == 0 ==> fp.chain == [] && fp.fptr == 0 && OutOfRoom(fp)
    ensures GrownFor(fp.fs.g, old(fp.chain), fp.chain, ofs)
    ensures old(fp.chain) != [] ==> fp.chain == old(fp.chain)
    ensures fp.fs.disk.faults == old(fp.fs.disk.faults) && old(CountExact(fp.fs)) ==> CountExact(fp.fs)
  {
    hide Volume.Valid, Volume.View, Volume.Snap, Holds, InFile, Distinct, Advances, Updates, LookAheadSafe, NoneFree,
         CountExact, IsChain, IsChainOrEmpty, Mappable, File.Ready, CursorIndex;
    fp.Parts();
    AdvancesNot(fp.fs.g, fp.fs.Snap(), fp.chain);
    SameUpdates(fp.fs.g, fp.fs.Snap());
    res, rest, k := Ok, ofs, 0;
    var bcs := fp.fs.g.csize * SS;
    IndexByBytes(fp.fs.g, ofs);
    if ifptr > 0 { IndexByBytes(fp.fs.g, ifptr); }
    if ifptr > 0 && (ofs - 1) / bcs >= (ifptr - 1) / bcs {
      k := CursorIndex(fp.fs.g, ifptr);
      Arith.MulMono(k, CursorIndex(fp.fs.g, ofs), bcs);
      fp.fptr := (ifptr - 1) / bcs * bcs;
      rest := ofs - fp.fptr;
      clst := fp.clust;
    } else {
      clst := fp.sclust;
      if clst == 0 {
        clst := StretchChain(fp, 0, -1);
        if clst == INTERNAL_ERROR { return IntErr, clst, rest, k; }
        if clst == DISK_ERROR { return DiskErr, clst, rest, k; }
      }
      fp.clust := clst;
    }
  }

  /** From `s0` and `c0` to `s` and `c` the loop has followed the chain, and stretched it only as far as it takes to
      get to `target`. */
  ghost predicate Pursued(g: Geometry, s0: Snapshot, c0: seq<int>, s: Snapshot, c: seq<int>, target: nat) {
    && Advances(g, s0, c0, s, c) && Updates(g, s0, s) && s0.faults <= s.faults
    && GrownFor(g, c0, c, target) && (target <= SectorCount(g, c0) * SS ==> c == c0)
  }

  lemma NotPursued(g: Geometry, s: Snapshot, c: seq<int>, target: nat)
    requires g.csize > 0 && AllClusters(g, c)
    ensures Pursued(g, s, c, s, c, target)
  {
    hide Advances, Updates, GrownFor;
    AdvancesNot(g, s, c);
    SameUpdates(g, s);
    NotGrown(g, c, target);
  }

  lemma PursuedMore(g: Geometry, s0: Snapshot, c0: seq<int>, s: Snapshot, c: seq<int>, s': Snapshot, c': seq<int>,
                    target: nat)
    requires Pursued(g, s0, c0, s, c, target) && Advances(g, s, c, s', c') && Updates(g, s, s') && s.faults <= s'.faults
    requires GrownFor(g, c, c', target) && (target <= SectorCount(g, c) * SS ==> c' == c)
    ensures Pursued(g, s0, c0, s', c', target)
  {
    hide Advances, Updates, GrownFor;
    AdvancesTrans(g, s0, c0, s, c, s', c');
    UpdatesTrans(g, s0, s, s');
    GrownTrans(g, c0, c, c', target, target);
  }

  lemma NextInside(g: Geometry, chain: seq<int>, k: nat, target: nat)
    requires g.csize > 0 && ClusterPos(g, k + 1) < target
    ensures target <= SectorCount(g, chain) * SS ==> k + 1 < |chain|
  {
    if target <= SectorCount(g, chain) * SS {
      ChainBytes(g, chain, k + 1, target);
    }
  }

  /** One step of the cluster following loop: the cluster after the one with index `k`. */
  method FollowOne(fp: File, clst: u32, ghost k: nat, ghost s0: Snapshot, ghost c0: seq<int>, ghost target: nat)
    returns (next: u32)
    requires fp.Ready() && fp.Mapped() && fp.cltbl == null && k < |fp.chain| && clst == fp.chain[k]
    requires fp.fptr == ClusterPos(fp.fs.g, k + 1) < target && (fp.canWrite || target <= fp.objsize)
    requires Pursued(fp.fs.g, s0, c0, fp.fs.Snap(), fp.chain, target)
    modifies fp`chain, fp`sclust
    modifies fp.fs`winsect, fp.fs`wflag, fp.fs`fat, fp.fs`lastClst, fp.fs`freeClst, fp.fs`fsiDirty, fp.fs.win,
             fp.fs.disk
    ensures fp.fs.Valid() && Pursued(fp.fs.g, s0, c0, fp.fs.Snap(), fp.chain, target)
    ensures old(LookAheadSafe(fp)) ==> LookAheadSafe(fp)
    ensures old(fp.fs.disk.faults) <= fp.fs.disk.faults
    ensures next == DISK_ERROR ==> old(fp.fs.disk.faults) < fp.fs.disk.faults
    ensures next != DISK_ERROR ==> fp.Ready()
    ensures next !in {0, INTERNAL_ERROR, DISK_ERROR} ==>
              k + 1 < |fp.chain| && next == fp.chain[k + 1] && next < fp.fs.g.nFatEnt
    ensures next == 0 ==>
              fp.chain == old(fp.chain) && k + 1 == |fp.chain| && OutOfRoom(fp)
                  && target > SectorCount(fp.fs.g, c0) * SS
    ensures next == INTERNAL_ERROR ==> HasOne(fp.fs.fat)
    ensures next != DISK_ERROR && old(CountExact(fp.fs)) ==> CountExact(fp.fs)
  {
    hide Volume.Valid, Volume.View, Volume.Snap, Holds, InFile, Distinct, Advances, Updates, LookAheadSafe, Keeps,
         Spares, NoneFree, CountExact, IsChain, IsChainOrEmpty, Mappable, File.Ready, Pursued, ClusterPos, SectorCount;
    fp.Parts();
    fp.Capacity();
    NextInside(fp.fs.g, fp.chain, k, target);
    ghost var s, c := fp.fs.Snap(), fp.chain;
    if fp.canWrite {
      next := StretchChain(fp, clst, k);
    } else {
      ClusterStart(fp.fs.g, k + 1);
      next := NextInChain(fp, clst, k, fp.fptr);
      KeepsUpdates(fp.fs.g, s, fp.fs.Snap());
      AdvancesKeeps(fp, s);
    }
    PursuedMore(fp.fs.g, s0, c0, s, c, fp.fs.Snap(), fp.chain, target);
    PursuedChain(fp.fs.g, s0, c0, s, c, target);
    if next != DISK_ERROR {
      fp.Parts();
    }
  }

  lemma PursuedChain(g: Geometry, s0: Snapshot, c0: seq<int>, s: Snapshot, c: seq<int>, target: nat)
    requires Pursued(g, s0, c0, s, c, target)
    ensures target <= SectorCount(g, c0) * SS ==> c == c0
    ensures Advances(g, s0, c0, s, c) && Updates(g, s0, s) && s0.faults <= s.faults && GrownFor(g, c0, c, target)
  {
    hide Advances, Updates, GrownFor;
  }

  /** The cluster following loop. It ends in the cluster of the target, or (`rest` is 0) at the end of
      the chain if that cannot be stretched any further. */
  method SeekFollow(fp: File, clst0: u32, rest0: u32, ghost k0: int)
    returns (res: FResult, clst: u32, rest: u32, ghost k: int)
    requires fp.Ready() && fp.Mapped() && fp.cltbl == null && OnCluster(fp, k0) && clst0 == fp.clust && 0 < rest0
    requires fp.fptr + rest0 < TWO32 && (fp.canWrite || fp.fptr + rest0 <= fp.objsize)
    modifies fp`fptr, fp`clust, fp`chain, fp`sclust
    modifies fp.fs`winsect, fp.fs`wflag, fp.fs`fat, fp.fs`lastClst, fp.fs`freeClst, fp.fs`fsiDirty, fp.fs.win,
             fp.fs.disk
    ensures fp.fs.Valid()
              && Pursued(fp.fs.g, old(fp.fs.Snap()), old(fp.chain), fp.fs.Snap(), fp.chain, old(fp.fptr) + rest0)
    ensures old(LookAheadSafe(fp)) ==> LookAheadSafe(fp)
    ensures res == Ok || Excused(fp.fs, old(fp.fs.disk.faults), res)
    ensures res == Ok ==> fp.Ready() && 0 <= k < |fp.chain| && fp.clust == fp.chain[k]
    ensures res == Ok && rest > 0 ==>
              OnCluster(fp, k) && clst == fp.clust && rest <= ClusterBytes(fp.fs.g)
                  && fp.fptr + rest == old(fp.fptr) + rest0
    ensures res == Ok && rest == 0 ==>
              && k + 1 == |fp.chain| && fp.fptr == ClusterPos(fp.fs.g, |fp.chain|) < old(fp.fptr) + rest0
                 && OutOfRoom(fp)
              && old(fp.fptr) + rest0 > SectorCount(fp.fs.g, old(fp.chain)) * SS
    ensures fp.fs.disk.faults == old(fp.fs.disk.faults) && old(CountExact(fp.fs)) ==> CountExact(fp.fs)
  {
    hide Volume.Valid, Volume.View, Volume.Snap, Holds, InFile, Distinct, Advances, Updates, LookAheadSafe, NoneFree,
         CountExact, IsChain, IsChainOrEmpty, Mappable, File.Ready, ClusterBytes, ClusterPos, SectorCount, OutOfRoom,
         Pursued, GrownFor;
    fp.Parts();
    NotPursued(fp.fs.g, fp.fs.Snap(), fp.chain, fp.fptr + rest0);
    res, clst, rest, k := Ok, clst0, rest0, k0;
    ghost var target := fp.fptr + rest0;
    var bcs := ClusterBytes(fp.fs.g);
    while rest > bcs
      invariant fp.Ready() && OnCluster(fp, k) && clst == fp.clust && 0 < rest && fp.fptr + rest == target && res == Ok
      invariant old(fp.fs.disk.faults) <= fp.fs.disk.faults
      invariant Pursued(fp.fs.g, old(fp.fs.Snap()), old(fp.chain), fp.fs.Snap(), fp.chain, target)
      invariant old(LookAheadSafe(fp)) ==> LookAheadSafe(fp)
      invariant fp.fs.disk.faults == old(fp.fs.disk.faults) && old(CountExact(fp.fs)) ==> CountExact(fp.fs)
      decreases rest
    {
      fp.Parts();
      ClusterStart(fp.fs.g, k);
      fp.fptr := fp.fptr + bcs;
      rest := rest - bcs;
      clst := FollowOne(fp, clst, k, old(fp.fs.Snap()), old(fp.chain), target);
      if clst == 0 {
        rest := 0;
        break;
      }
      if clst == DISK_ERROR { res := DiskErr; return; }
      if clst <= 1 || clst >= fp.fs.g.nFatEnt { res := IntErr; return; }
      fp.clust := clst;
      k := k + 1;
    }
  }

  /** Position `pos` is one of the file's clusters, of which `clust` is the one with the byte before,
      and inside a sector that sector is `nsect`. */
  ghost predicate Placed(g: Geometry, chain: seq<int>, pos: nat, clust: int, nsect: int) {
    && g.csize > 0 && AllClusters(g, chain) && pos <= SectorCount(g, chain) * SS
    && CursorAt(g, chain, pos, clust)
    && BufferAt(g, chain, pos, nsect)
  }

  lemma PlacedNowhere(g: Geometry, chain: seq<int>, clust: int, nsect: int)
    requires g.csize > 0 && AllClusters(g, chain)
    ensures Placed(g, chain, 0, clust, nsect) && ClusterPos(g, 0) == 0
  {
  }

  lemma ArrivedPos(g: Geometry, chain: seq<int>, k: nat, start: nat, rest: nat)
    requires g.csize > 0 && k < |chain|
    requires if rest == 0 then k + 1 == |chain| && start == ClusterPos(g, |chain|)
             else start == ClusterPos(g, k) && rest <= ClusterBytes(g)
    ensures ClusterPos(g, k) < start + rest <= ClusterPos(g, k + 1)
    ensures start + rest <= SectorCount(g, chain) * SS
    ensures (start + rest) % SS == rest % SS
  {
    hide ClusterPos, ClusterBytes, SectorCount;
    PosMono(g, chain, k + 1);
    ClusterStart(g, k);
    ClusterStart(g, k + 1);
    WholeSectors(start, rest);
  }

  lemma PosMono(g: Geometry, chain: seq<int>, k: nat)
    requires k <= |chain|
    ensures ClusterPos(g, k) <= SectorCount(g, chain) * SS == ClusterPos(g, |chain|)
  {
    Arith.MulMono(k, |chain|, ClusterBytes(g));
  }

  lemma WholeSectors(start: nat, rest: nat)
    requires start % SS == 0
    ensures (start + rest) % SS == rest % SS
  {
  }

  /** Where the cluster following loop has led to. */
  lemma Arrived(g: Geometry, v: seq<Sector>, chain: seq<int>, k: nat, start: nat, rest: nat)
    requires Mappable(g, v, chain) && k < |chain|
    requires if rest == 0 then k + 1 == |chain| && start == ClusterPos(g, |chain|)
             else start == ClusterPos(g, k) && rest <= ClusterBytes(g)
    ensures rest % SS != 0 ==> g.database <= g.ClusterSector(chain[k]) + rest / SS < |v|
    ensures Placed(g, chain, start + rest, chain[k],
                   if rest % SS != 0 then g.ClusterSector(chain[k]) + rest / SS else 0)
  {
    hide ClusterPos, ClusterBytes, CursorIndex, SectorNo, SectorCount;
    ArrivedPos(g, chain, k, start, rest);
    IndexFromBytes(g, start + rest, k);
    if rest % SS != 0 {
      SectorPlace(g, chain, k, rest);
      SectorsInside(g, chain);
    }
  }

  lemma NotEmpty(g: Geometry, chain: seq<int>, ofs: nat, size: nat)
    requires 0 < ofs <= size <= SectorCount(g, chain) * SS
    ensures chain != []
  {
  }

  /** The cluster following loop, and the sector it leads to. */
  method SeekArrive(fp: File, clst0: u32, rest0: u32, ghost k0: int) returns (res: FResult, nsect: u32)
    requires fp.Ready() && fp.Mapped() && fp.cltbl == null && OnCluster(fp, k0) && clst0 == fp.clust && 0 < rest0
    requires fp.fptr + rest0 < TWO32 && (fp.canWrite || fp.fptr + rest0 <= fp.objsize)
    modifies fp`fptr, fp`clust, fp`chain, fp`sclust
    modifies fp.fs`winsect, fp.fs`wflag, fp.fs`fat, fp.fs`lastClst, fp.fs`freeClst, fp.fs`fsiDirty, fp.fs.win,
             fp.fs.disk
    ensures fp.fs.Valid() && old(fp.fs.disk.faults) <= fp.fs.disk.faults
    ensures Advances(fp.fs.g, old(fp.fs.Snap()), old(fp.chain), fp.fs.Snap(), fp.chain)
    ensures Updates(fp.fs.g, old(fp.fs.Snap()), fp.fs.Snap())
    ensures old(LookAheadSafe(fp)) ==> LookAheadSafe(fp)
    ensures GrownFor(fp.fs.g, old(fp.chain), fp.chain, old(fp.fptr) + rest0)
    ensures res == Ok || Excused(fp.fs, old(fp.fs.disk.faults), res)
    ensures res == Ok ==> fp.Ready() && Placed(fp.fs.g, fp.chain, fp.fptr, fp.clust, nsect)
    ensures res == Ok ==> fp.fptr == old(fp.fptr) + rest0
                          || (fp.fptr < old(fp.fptr) + rest0 && fp.fptr == ClusterPos(fp.fs.g, |fp.chain|)
                             && OutOfRoom(fp))
    ensures res == Ok && old(fp.fptr) + rest0 <= SectorCount(fp.fs.g, old(fp.chain)) * SS ==>
              fp.fptr == old(fp.fptr) + rest0 && fp.chain == old(fp.chain)
    ensures fp.fs.disk.faults == old(fp.fs.disk.faults) && old(CountExact(fp.fs)) ==> CountExact(fp.fs)
  {
    hide GrownFor, Volume.Valid, Volume.View, Volume.Snap, Holds, InFile, Distinct, Advances, Updates, LookAheadSafe,
         NoneFree, CountExact, IsChain, IsChainOrEmpty, Mappable, File.Ready, ClusterBytes, ClusterPos, SectorCount,
         CursorAt, BufferAt, Placed, CursorIndex, Excused, OutOfRoom, CsizeOk;
    nsect := 0;
    var clst, rest;
    ghost var k;
    ghost var s0, c0, target := fp.fs.Snap(), fp.chain, fp.fptr + rest0;
    res, clst, rest, k := SeekFollow(fp, clst0, rest0, k0);
    PursuedChain(fp.fs.g, s0, c0, fp.fs.Snap(), fp.chain, target);
    if res != Ok { return; }
    res, nsect := PlaceSector(fp, clst, rest, k);
  }

  /** Moves the file pointer into the cluster that has been found, and determines the sector. */
  method PlaceSector(fp: File, clst: u32, rest: u32, ghost k: nat) returns (res: FResult, nsect: u32)
    requires fp.Ready() && k < |fp.chain| && fp.clust == fp.chain[k] && fp.fptr + rest < TWO32
    requires if rest == 0 then k + 1 == |fp.chain| && fp.fptr == ClusterPos(fp.fs.g, |fp.chain|)
             else fp.fptr == ClusterPos(fp.fs.g, k) && rest <= ClusterBytes(fp.fs.g) && clst == fp.clust
    modifies fp`fptr
    ensures res == Ok && fp.Ready() && fp.fptr == old(fp.fptr) + rest
    ensures Placed(fp.fs.g, fp.chain, fp.fptr, fp.clust, nsect)
  {
    hide Volume.Valid, Volume.View, Holds, InFile, Distinct, IsChain, IsChainOrEmpty, Mappable, File.Ready,
         ClusterBytes, ClusterPos, SectorCount, Placed, CsizeOk;
    res, nsect := Ok, 0;
    fp.Parts();
    Arrived(fp.fs.g, fp.fs.View(), fp.chain, k, fp.fptr, rest);
    fp.fptr := fp.fptr + rest;
    if rest % SS != 0 {
      nsect := fp.fs.ClusterToSector(clst);
      if nsect == 0 { res := IntErr; return; }
      nsect := nsect + rest / SS;
    }
  }

  /** The part of f_lseek that moves the file pointer to `ofs` and stretches the chain if necessary. */
  method SeekPlace(fp: File, ofs: u32) returns (res: FResult, nsect: u32)
    requires fp.Valid() && fp.Mapped() && fp.cltbl == null && (fp.canWrite || ofs <= fp.objsize)
    modifies fp`fptr, fp`clust, fp`chain, fp`sclust
    modifies fp.fs`winsect, fp.fs`wflag, fp.fs`fat, fp.fs`lastClst, fp.fs`freeClst, fp.fs`fsiDirty, fp.fs.win,
             fp.fs.disk
    ensures fp.fs.Valid() && old(fp.fs.disk.faults) <= fp.fs.disk.faults
    ensures Advances(fp.fs.g, old(fp.fs.Snap()), old(fp.chain), fp.fs.Snap(), fp.chain)
    ensures Updates(fp.fs.g, old(fp.fs.Snap()), fp.fs.Snap())
    ensures old(LookAheadSafe(fp)) ==> LookAheadSafe(fp)
    ensures GrownFor(fp.fs.g, old(fp.chain), fp.chain, ofs)
    ensures res == Ok || Excused(fp.fs, old(fp.fs.disk.faults), res)
    ensures res == Ok ==> fp.Ready() && Placed(fp.fs.g, fp.chain, fp.fptr, fp.clust, nsect)
    ensures res == Ok ==>
              fp.fptr == ofs || (fp.fptr < ofs && fp.fptr == ClusterPos(fp.fs.g, |fp.chain|) && OutOfRoom(fp))
    ensures res == Ok && ofs <= old(fp.objsize) ==>
              fp.fptr == ofs && fp.chain == old(fp.chain) && (ofs == 0 ==> fp.clust == old(fp.clust))
    ensures fp.fs.disk.faults == old(fp.fs.disk.faults) && old(CountExact(fp.fs)) ==> CountExact(fp.fs)
  {
    hide GrownFor, Volume.Valid, Volume.View, Volume.Snap, Holds, InFile, Distinct, Advances, Updates, LookAheadSafe,
         NoneFree, CountExact, IsChain, IsChainOrEmpty, Mappable, File.Ready, ClusterBytes, ClusterPos, SectorCount,
         CursorAt, BufferAt, Placed, CursorIndex, Excused, OutOfRoom, CsizeOk, OnCluster;
    fp.Capacity();
    NotGrown(fp.fs.g, fp.chain, ofs);
    AdvancesNot(fp.fs.g, fp.fs.Snap(), fp.chain);
    SameUpdates(fp.fs.g, fp.fs.Snap());
    var ifptr := fp.fptr;
    fp.fptr, nsect := 0, 0;
    res := Ok;
    if 0 < ofs <= fp.objsize { NotEmpty(fp.fs.g, fp.chain, ofs, fp.objsize); }
    PlacedNowhere(fp.fs.g, fp.chain, fp.clust, nsect);
    if ofs > 0 {
      var clst, rest;
      ghost var k;
      res, clst, rest, k := SeekStart(fp, ofs, ifptr);
      if res != Ok { return; }
      if clst != 0 {
        ghost var s, c := fp.fs.Snap(), fp.chain;
        res, nsect := SeekArrive(fp, clst, rest, k);
        GrownTrans(fp.fs.g, old(fp.chain), c, fp.chain, ofs, ofs);
        AdvancesTrans(fp.fs.g, old(fp.fs.Snap()), old(fp.chain), s, c, fp.fs.Snap(), fp.chain);
        UpdatesTrans(fp.fs.g, old(fp.fs.Snap()), s, fp.fs.Snap());
        if res != Ok {
          ExcusedLater(fp.fs, old(fp.fs.disk.faults), s.faults, res);
        }
      } else {
        PlacedNowhere(fp.fs.g, fp.chain, fp.clust, nsect);
      }
    }
  }

  /** A file whose pointer has been moved past its end ends there from now on. What the bytes between
      are is left to what the clusters held before. */
  method Extend(fp: File)
    requires fp.Ready() && fp.fptr <= SectorCount(fp.fs.g, fp.chain) * SS
    modifies fp`content, fp`objsize, fp`modified
    ensures fp.Ready() && fp.fptr <= fp.objsize && old(fp.content) <= fp.content
    ensures fp.objsize == if fp.fptr > old(fp.objsize) then fp.fptr else old(fp.objsize)
    ensures fp.modified == (old(fp.modified) || fp.fptr > old(fp.objsize))
  {
    hide Volume.Valid, Volume.View, InFile, Distinct, IsChain, IsChainOrEmpty, SectorCount, AllBytes;
    if fp.fptr > fp.objsize {
      fp.Parts();
      ghost var all := AllBytes(fp.fs.g, Overlay(fp.fs.View(), fp.dirty, fp.sect, fp.buf[..]), fp.chain);
      fp.content := all[..fp.fptr];
      fp.objsize := fp.fptr;
      fp.modified := true;
    }
  }

  /** Fills the sector buffer if the file pointer is inside a sector. */
  method SeekFill(fp: File, nsect: u32) returns (res: FResult)
    requires fp.Ready() && fp.fptr <= fp.objsize && Placed(fp.fs.g, fp.chain, fp.fptr, fp.clust, nsect)
    modifies fp`dirty, fp`sect, fp.buf, fp.fs.disk
    ensures fp.fs.Valid() && old(fp.fs.disk.faults) <= fp.fs.disk.faults
    ensures Spares(fp.fs.g, old(fp.fs.Snap()), fp.fs.Snap(), fp.chain)
    ensures res == Ok || (res == DiskErr && old(fp.fs.disk.faults) < fp.fs.disk.faults)
    ensures res == Ok ==> fp.Valid() && SectorKept(fp, old(fp.sect))
    ensures res == Ok ==> Landed(fp.fs.g, old(fp.fs.View()), fp.chain, old(CursorOf(fp)), CursorOf(fp), fp.fptr)
  {
    hide Volume.Valid, Volume.View, Volume.Snap, Holds, InFile, Distinct, Spares, IsChain, IsChainOrEmpty, Mappable,
         File.Ready, CursorIndex, SectorNo, SectorCount;
    fp.Parts();
    InsideSeekable(fp.fs.g, fp.fs.View(), fp.chain, fp.fptr);
    SparesSame(fp.fs.g, fp.fs.Snap(), fp.chain);
    res := Ok;
    if fp.fptr % SS != 0 && nsect != fp.sect {
      res := LoadSector(fp, nsect, fp.fptr / SS);
    }
  }

  /** Where a normal seek to `ofs` is to lead: only in write mode past the end of the file. */
  function SeekTarget(fp: File, ofs: u32): (t: u32)
    reads fp`objsize
    ensures t <= ofs && (fp.canWrite || t <= fp.objsize)
  {
    if ofs > fp.objsize && !fp.canWrite then fp.objsize else ofs
  }

  /** f_lseek without a link map. */
  method SeekNormal(fp: File, ofs: u32) returns (res: FResult)
    requires fp.Valid() && fp.Mapped() && fp.cltbl == null
    modifies fp`fptr, fp`clust, fp`chain, fp`sclust, fp`content, fp`objsize, fp`modified, fp`dirty, fp`sect, fp.buf
    modifies fp.fs`winsect, fp.fs`wflag, fp.fs`fat, fp.fs`lastClst, fp.fs`freeClst, fp.fs`fsiDirty, fp.fs.win,
             fp.fs.disk
    ensures fp.fs.Valid() && old(fp.fs.disk.faults) <= fp.fs.disk.faults
    ensures Advances(fp.fs.g, old(fp.fs.Snap()), old(fp.chain), fp.fs.Snap(), fp.chain)
    ensures old(LookAheadSafe(fp)) ==> LookAheadSafe(fp)
    ensures GrownFor(fp.fs.g, old(fp.chain), fp.chain, old(SeekTarget(fp, ofs)))
    ensures res == Ok || Excused(fp.fs, old(fp.fs.disk.faults), res)
    ensures res == Ok ==> fp.Valid() && old(fp.content) <= fp.content && SectorKept(fp, old(fp.sect))
    ensures res == Ok ==> fp.objsize == if fp.fptr > old(fp.objsize) then fp.fptr else old(fp.objsize)
    ensures res == Ok ==> fp.modified == (old(fp.modified) || fp.objsize > old(fp.objsize))
    ensures res == Ok ==> fp.fptr == old(SeekTarget(fp, ofs))
                          || (fp.fptr < ofs && fp.fptr == ClusterPos(fp.fs.g, |fp.chain|) && OutOfRoom(fp))
    ensures res == Ok && old(SeekTarget(fp, ofs)) <= old(fp.objsize) ==> fp.fptr == old(SeekTarget(fp, ofs))
    ensures res == Ok && old(SeekTarget(fp, ofs)) <= old(fp.objsize) ==>
              fp.chain == old(fp.chain)
                  && Landed(fp.fs.g, old(fp.fs.View()), fp.chain, old(CursorOf(fp)), CursorOf(fp), fp.fptr)
    ensures fp.fs.disk.faults == old(fp.fs.disk.faults) && old(CountExact(fp.fs)) ==> CountExact(fp.fs)
  {
    hide GrownFor, Volume.Valid, Volume.View, Volume.Snap, Holds, InFile, Distinct, Advances, Spares, Updates,
         LookAheadSafe, NoneFree, CountExact, IsChain, IsChainOrEmpty, Mappable, File.Ready, SectorCount, CursorAt,
         BufferAt, CursorIndex, OutOfRoom, ClusterPos, SectorNo, Sought, Seekable, Landed, SameOutsideFats;
    var nsect;
    ghost var target, v0, c0 := SeekTarget(fp, ofs), fp.fs.View(), CursorOf(fp);
    res, nsect := SeekPlace(fp, SeekTarget(fp, ofs));
    if res != Ok { return; }
    UpdatesView(fp.fs.g, old(fp.fs.Snap()), fp.fs.Snap());
    Extend(fp);
    ghost var s, c1 := fp.fs.Snap(), CursorOf(fp);
    res := SeekFill(fp, nsect);
    AdvancesSame(fp.fs.g, s, fp.fs.Snap(), fp.chain);
    AdvancesTrans(fp.fs.g, old(fp.fs.Snap()), old(fp.chain), s, fp.chain, fp.fs.Snap(), fp.chain);
    if res == Ok && target <= old(fp.objsize) {
      fp.Parts();
      SoughtSame(fp.fs.g, v0, s.view, fp.chain, c0, c1, CursorOf(fp), target);
    }
  }

  lemma UpdatesView(g: Geometry, s: Snapshot, s': Snapshot)
    requires Updates(g, s, s')
    ensures SameOutsideFats(g, s.view, s'.view)
  {
  }

  lemma SameFats(g: Geometry, v: seq<Sector>)
    ensures SameOutsideFats(g, v, v)
  {
  }

  /** It does not matter which of the FATs' states the buffer is filled in. */
  lemma SoughtSame(g: Geometry, v: seq<Sector>, v': seq<Sector>, chain: seq<int>, c: Cursor, c': Cursor, c'': Cursor,
                   ofs: nat)
    requires Landed(g, v', chain, c', c'', ofs)
    requires g.FatsEnd() <= g.database && 2 <= g.nFatEnt && SameOutsideFats(g, v, v')
    requires c' == c.(fptr := c'.fptr, clust := c'.clust) && (ofs == 0 ==> c'.clust == c.clust)
    ensures Landed(g, v, chain, c, c'', ofs)
  {
    SectorsInside(g, chain);
  }

  // ------------------------------------------------------------------------------------------
  // Fast seek

  lemma FastPlace(g: Geometry, v: seq<Sector>, chain: seq<int>, pos: nat)
    requires Mappable(g, v, chain) && 0 < pos <= SectorCount(g, chain) * SS
    ensures 0 <= CursorIndex(g, pos) < |chain|
    ensures g.database <= g.ClusterSector(chain[CursorIndex(g, pos)]) + (pos - 1) / SS % g.csize < |v|
    ensures Placed(g, chain, pos, chain[CursorIndex(g, pos)],
                   g.ClusterSector(chain[CursorIndex(g, pos)]) + (pos - 1) / SS % g.csize)
  {
    var n := (pos - 1) / SS;
    ClusterIndex(g, chain, n);
    SectorsInside(g, chain);
    assert SectorNo(g, chain, n) == g.ClusterSector(chain[CursorIndex(g, pos)]) + n % g.csize;
  }

  /** f_lseek with a link map: inside the file only. The map gives the cluster without following the
      chain; the cursor ends where the normal seek ends. It fails only with a stale link map. */
  method SeekFast(fp: File, ofs: u32) returns (res: FResult)
    requires fp.Valid() && fp.Mapped() && fp.cltbl != null
    modifies fp`fptr, fp`clust, fp`dirty, fp`sect, fp.buf, fp.fs.disk
    ensures fp.fs.Valid() && old(fp.fs.disk.faults) <= fp.fs.disk.faults
    ensures Spares(fp.fs.g, old(fp.fs.Snap()), fp.fs.Snap(), fp.chain)
    ensures fp.fptr == if ofs > fp.objsize then fp.objsize else ofs
    ensures res == IntErr <==> fp.fptr > 0 && fp.mapped != fp.chain
    ensures res in {Ok, IntErr} || (res == DiskErr && old(fp.fs.disk.faults) < fp.fs.disk.faults)
    ensures res == Ok ==> SectorKept(fp, old(fp.sect))
    ensures res == Ok ==>
              fp.Valid() && Landed(fp.fs.g, old(fp.fs.View()), fp.chain, old(CursorOf(fp)), CursorOf(fp), fp.fptr)
  {
    hide Volume.Valid, Volume.View, Volume.Snap, Holds, InFile, Distinct, Spares, IsChain, IsChainOrEmpty, Mappable,
         File.Ready, CursorIndex, SectorNo, SectorCount, Placed, Seekable, Landed, Encodes;
    SparesSame(fp.fs.g, fp.fs.Snap(), fp.chain);
    ghost var c := CursorOf(fp);
    fp.Capacity();
    fp.fptr := if ofs > fp.objsize then fp.objsize else ofs;
    var dsc;
    res, dsc := EnterMapped(fp);
    if res != Ok { return; }
    ghost var c1 := CursorOf(fp);
    res := SeekFill(fp, dsc);
    if res == Ok {
      SameFats(fp.fs.g, old(fp.fs.View()));
      fp.Parts();
      SoughtSame(fp.fs.g, old(fp.fs.View()), old(fp.fs.View()), fp.chain, c, c1, CursorOf(fp), fp.fptr);
    }
  }

  /** The cluster and the sector of the file pointer from the link map. */
  method EnterMapped(fp: File) returns (res: FResult, dsc: u32)
    requires fp.Ready() && fp.Mapped() && fp.cltbl != null && fp.fptr <= fp.objsize
    modifies fp`clust
    ensures fp.Ready()
    ensures res in {Ok, IntErr} && (res == IntErr <==> fp.fptr > 0 && fp.mapped != fp.chain)
    ensures res == Ok ==>
              Placed(fp.fs.g, fp.chain, fp.fptr, fp.clust, dsc) && (fp.fptr == 0 ==> fp.clust == old(fp.clust))
  {
    hide Volume.Valid, Volume.View, Holds, InFile, Distinct, IsChain, IsChainOrEmpty, Mappable, File.Ready, CursorIndex,
         SectorNo, Placed, Encodes;
    fp.Parts();
    fp.Capacity();
    res, dsc := Ok, 0;
    PlacedNowhere(fp.fs.g, fp.chain, fp.clust, dsc);
    if fp.fptr > 0 {
      FastPlace(fp.fs.g, fp.fs.View(), fp.chain, fp.fptr);
      IndexInt(fp.fs.g, fp.fptr);
      fp.clust := ClmtClust(fp.fs.g, fp.cltbl, fp.fptr - 1, fp.mapped);
      dsc := fp.fs.ClusterToSector(fp.clust);
      if dsc == 0 { return IntErr, dsc; }
      dsc := dsc + (fp.fptr - 1) / SS % fp.fs.g.csize;
    }
  }

  lemma IndexInt(g: Geometry, pos: nat)
    requires g.csize > 0 && pos > 0
    ensures (pos - 1) / SS / g.csize == CursorIndex(g, pos)
  {
  }
}
